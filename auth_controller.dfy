/**
 * The auth service of backend/src/controllers/authController.ts: `login`
 * and `register` over the user collection, answering with a status code and
 * either a token with a public user view or an error message.
 */
module AuthController {
  import opened Wrappers
  import opened Users
  import opened UserModel
  import Bcrypt
  import Jwt

  /**
   * The libraries and configuration the controller works with: the hasher,
   * the token codec and the value of the JWT_SECRET environment variable.
   */
  datatype Env = Env(hasher: Bcrypt.Hasher, jwt: Jwt.Codec, jwtSecretVar: Option<string>)
  {
    /** The signing secret the controller computes from the variable. */
    function Secret(): string
    {
      Jwt.Secret(jwtSecretVar)
    }
  }

  ghost predicate Lawful(env: Env)
  {
    Bcrypt.Lawful(env.hasher) && Jwt.Lawful(env.jwt)
  }

  datatype LoginRequest = LoginRequest(username: string, password: Option<string>)

  datatype RegisterRequest = RegisterRequest(username: string, password: Option<string>, role: Option<string>, name: Option<string>)

  /** The user object of a response: no password field. */
  datatype UserView = UserView(id: string, username: string, role: Role, name: string)

  /** One response: a token with a user view (200 or 201), or a status with a message. */
  datatype AuthResponse =
    | Issued(status: nat, token: string, user: UserView)
    | Failed(status: nat, message: string)

  const InvalidCredentials: string := "Invalid credentials"
  const UserExists: string := "User already exists"
  const ServerError: string := "Server error"

  function ViewOf(d: UserDoc): UserView
  {
    UserView(d.id, d.username, d.role, d.name)
  }

  function ClaimsOf(d: UserDoc): Jwt.Claims
  {
    Jwt.Claims(d.id, d.username, d.role)
  }

  /**
   * `login` as a function of the collection. `dbFault` makes `findOne`
   * throw; an absent password makes `bcrypt.compare` throw.
   */
  function LoginOutcome(users: map<string, UserDoc>, env: Env, req: LoginRequest, nowMs: nat, dbFault: bool): (r: AuthResponse)
    ensures r.Issued? <==> !dbFault && req.username in users && req.password.Some?
                           && env.hasher.compare(req.password.value, users[req.username].password)
    ensures r.Issued? ==> r.status == 200 && r.user == ViewOf(users[req.username])
                          && r.token == Jwt.Sign(env.jwt, ClaimsOf(users[req.username]), env.Secret(), nowMs)
    ensures r.Failed? ==> (r.status == 401 && r.message == InvalidCredentials) || (r.status == 500 && r.message == ServerError)
    ensures r.Failed? ==> (r.status == 500 <==> dbFault || (req.username in users && req.password.None?))
  {
    if dbFault then Failed(500, ServerError)
    else if req.username !in users then Failed(401, InvalidCredentials)
    else if req.password.None? then Failed(500, ServerError)
    else
      var user := users[req.username];
      if !env.hasher.compare(req.password.value, user.password) then Failed(401, InvalidCredentials)
      else Issued(200, Jwt.Sign(env.jwt, ClaimsOf(user), env.Secret(), nowMs), ViewOf(user))
  }

  /**
   * `register` as a function of the collection: the new collection and the
   * response. `freshId` is the `_id` Mongoose assigns; `dbFault` makes a
   * database call throw.
   */
  function RegisterOutcome(users: map<string, UserDoc>, env: Env, req: RegisterRequest, nowMs: nat, freshId: string, dbFault: bool)
    : (r: (map<string, UserDoc>, AuthResponse))
    ensures r.1.Issued? ==> && !dbFault && req.username !in users && req.password.Some?
                            && r.1.status == 201
                            && req.username in r.0 && r.0 == users[req.username := r.0[req.username]]
                            && r.0[req.username].password == env.hasher.hash(req.password.value)
                            && r.0[req.username].createdAt == nowMs
                            && r.0[req.username].id == freshId
                            && req.name.Some?
                            && r.0[req.username] == UserDoc(freshId, req.username, env.hasher.hash(req.password.value),
                                                             r.0[req.username].role, req.name.value, nowMs)
                            && RoleName(r.0[req.username].role) == RequestedRole(req)
                            && r.1.user == ViewOf(r.0[req.username])
                            && r.1.token == Jwt.Sign(env.jwt, ClaimsOf(r.0[req.username]), env.Secret(), nowMs)
    ensures r.1.Failed? ==> r.0 == users && r.1.status in {400, 500}
    ensures r.1.Failed? && r.1.status == 400 <==> !dbFault && req.username in users
    ensures r.1.Failed? && r.1.status == 400 ==> r.1.message == UserExists
    ensures r.1.Failed? && r.1.status == 500 ==> r.1.message == ServerError
    ensures StoreInvariant(users) ==> StoreInvariant(r.0)
  {
    if dbFault then (users, Failed(500, ServerError))
    else if req.username in users then (users, Failed(400, UserExists))
    else if req.password.None? then (users, Failed(500, ServerError))
    else
      var draft := NewUser(freshId, req.username, env.hasher.hash(req.password.value), req.role, req.name, nowMs);
      match Save(users, draft)
      case Failure(_) => (users, Failed(500, ServerError))
      case Success(doc) =>
        (users[doc.username := doc], Issued(201, Jwt.Sign(env.jwt, ClaimsOf(doc), env.Secret(), nowMs), ViewOf(doc)))
  }

  /** The role a registration asks for: the default when none is sent. */
  function RequestedRole(req: RegisterRequest): string
  {
    if req.role.Some? then req.role.value else RoleName(DefaultRole)
  }

  /** Exactly when `register` succeeds: the database answers, the name and `_id` are free, and the record passes the schema. */
  lemma RegisterSucceedsIff(users: map<string, UserDoc>, env: Env, req: RegisterRequest, nowMs: nat, freshId: string, dbFault: bool)
    requires Lawful(env)
    ensures RegisterOutcome(users, env, req, nowMs, freshId, dbFault).1.Issued?
        <==> && !dbFault && req.username !in users && !IdInUse(users, freshId)
             && req.password.Some? && req.username != ""
             && RequestedRole(req) in RoleNames
             && req.name.Some? && req.name.value != ""
  {
    if !dbFault && req.username !in users && req.password.Some? {
      var digest := env.hasher.hash(req.password.value);
      assert |digest| == Bcrypt.DigestLength;
    }
  }

  /** A successful registration adds exactly one record and changes no other. */
  lemma RegisterAddsOne(users: map<string, UserDoc>, env: Env, req: RegisterRequest, nowMs: nat, freshId: string, dbFault: bool)
    requires RegisterOutcome(users, env, req, nowMs, freshId, dbFault).1.Issued?
    ensures var after := RegisterOutcome(users, env, req, nowMs, freshId, dbFault).0;
            && after.Keys == users.Keys + {req.username}
            && |after| == |users| + 1
            && (forall u :: u in users ==> after[u] == users[u])
  {
  }

  /** Registering a taken username answers 400 and leaves the collection, including that user's record, as it was. */
  lemma RegisterDuplicate(users: map<string, UserDoc>, env: Env, req: RegisterRequest, nowMs: nat, freshId: string)
    requires req.username in users
    ensures RegisterOutcome(users, env, req, nowMs, freshId, false) == (users, Failed(400, UserExists))
  {
  }

  /** A registration whose record breaks the schema (role outside the enum, missing name) answers 500 and changes nothing. */
  lemma RegisterInvalidRecord(users: map<string, UserDoc>, env: Env, req: RegisterRequest, nowMs: nat, freshId: string)
    requires req.username !in users
    requires (req.role.Some? && req.role.value !in RoleNames) || req.name.None? || req.name == Some("")
    ensures RegisterOutcome(users, env, req, nowMs, freshId, false) == (users, Failed(500, ServerError))
  {
  }

  /** A registration without a role stores role worker. */
  lemma RegisterDefaultRole(users: map<string, UserDoc>, env: Env, req: RegisterRequest, nowMs: nat, freshId: string, dbFault: bool)
    requires req.role.None?
    requires RegisterOutcome(users, env, req, nowMs, freshId, dbFault).1.Issued?
    ensures RegisterOutcome(users, env, req, nowMs, freshId, dbFault).0[req.username].role == Worker
  {
  }

  /** An unknown username is answered 401 "Invalid credentials" and no token, whatever the password. */
  lemma LoginUnknownUser(users: map<string, UserDoc>, env: Env, req: LoginRequest, nowMs: nat)
    requires req.username !in users
    ensures LoginOutcome(users, env, req, nowMs, false) == Failed(401, InvalidCredentials)
  {
  }

  /**
   * A wrong password gets the very response the same request would get if the
   * user did not exist, so a caller cannot tell the two cases apart.
   */
  lemma WrongPasswordLooksUnknown(users: map<string, UserDoc>, env: Env, req: LoginRequest, nowMs: nat)
    requires req.username in users && req.password.Some?
    requires !env.hasher.compare(req.password.value, users[req.username].password)
    ensures LoginOutcome(users, env, req, nowMs, false) == LoginOutcome(users - {req.username}, env, req, nowMs, false)
    ensures LoginOutcome(users, env, req, nowMs, false) == Failed(401, InvalidCredentials)
  {
  }

  /**
   * A login request without a password tells an existing username from an
   * unknown one: `bcrypt.compare` throws for the existing user (500), while
   * the unknown user gets 401.
   */
  lemma MissingPasswordRevealsUser(users: map<string, UserDoc>, env: Env, u: string, nowMs: nat)
    requires u in users
    ensures LoginOutcome(users, env, LoginRequest(u, None), nowMs, false) == Failed(500, ServerError)
    ensures LoginOutcome(users - {u}, env, LoginRequest(u, None), nowMs, false) == Failed(401, InvalidCredentials)
  {
  }

  /** A successful login's token decodes to exactly the stored id, username and role, expiring one day after issue. */
  lemma LoginTokenClaims(users: map<string, UserDoc>, env: Env, req: LoginRequest, nowMs: nat, dbFault: bool)
    requires Jwt.Lawful(env.jwt)
    requires LoginOutcome(users, env, req, nowMs, dbFault).Issued?
    ensures var r := LoginOutcome(users, env, req, nowMs, dbFault);
            var user := users[req.username];
            && env.jwt.decode(r.token, env.Secret()) == Some(Jwt.Payload(Jwt.Claims(user.id, user.username, user.role), nowMs / 1000, Some(nowMs / 1000 + Jwt.OneDay), None))
            && r.user == UserView(user.id, user.username, user.role, user.name)
  {
  }

  /**
   * Round trip: after a successful `register(u, p, role, name)`, `login(u, p)`
   * succeeds and its token carries username `u` and the registered role
   * (worker when none was sent), and verifies until it expires.
   */
  lemma RegisterThenLogin(users: map<string, UserDoc>, env: Env, req: RegisterRequest, regMs: nat, freshId: string,
                          loginMs: nat, checkMs: nat)
    requires Lawful(env)
    requires RegisterOutcome(users, env, req, regMs, freshId, false).1.Issued?
    requires checkMs / 1000 < loginMs / 1000 + Jwt.OneDay
    ensures var after := RegisterOutcome(users, env, req, regMs, freshId, false).0;
            var r := LoginOutcome(after, env, LoginRequest(req.username, req.password), loginMs, false);
            && r.Issued? && r.status == 200
            && (exists p :: Jwt.Verify(env.jwt, Some(r.token), env.Secret(), checkMs) == Success(p)
                            && p.claims.username == req.username
                            && RoleName(p.claims.role) == RequestedRole(req))
  {
    var after := RegisterOutcome(users, env, req, regMs, freshId, false).0;
    var doc := after[req.username];
    assert env.hasher.compare(req.password.value, env.hasher.hash(req.password.value));
    var r := LoginOutcome(after, env, LoginRequest(req.username, req.password), loginMs, false);
    Jwt.VerifySigned(env.jwt, ClaimsOf(doc), env.Secret(), loginMs, checkMs);
    var p := Jwt.Issue(ClaimsOf(doc), loginMs);
    assert Jwt.Verify(env.jwt, Some(r.token), env.Secret(), checkMs) == Success(p);
  }

  /** The user collection with the operations of the controller. */
  class UserStore {
    var users: map<string, UserDoc>
    const env: Env

    ghost predicate Valid()
      reads this
    {
      StoreInvariant(users)
    }

    constructor (env: Env, initial: map<string, UserDoc>)
      requires StoreInvariant(initial)
      ensures Valid() && this.env == env && users == initial
    {
      this.env := env;
      users := initial;
    }

    /** `login`: reads the collection and never changes it. */
    method Login(req: LoginRequest, nowMs: nat, dbFault: bool) returns (r: AuthResponse)
      requires Valid()
      ensures r == LoginOutcome(users, env, req, nowMs, dbFault)
    {
      if dbFault {
        return Failed(500, ServerError);
      }
      if req.username !in users {
        return Failed(401, InvalidCredentials);
      }
      var user := users[req.username];
      if req.password.None? {
        return Failed(500, ServerError);
      }
      var isMatch := env.hasher.compare(req.password.value, user.password);
      if !isMatch {
        return Failed(401, InvalidCredentials);
      }
      var token := Jwt.Sign(env.jwt, ClaimsOf(user), env.Secret(), nowMs);
      r := Issued(200, token, ViewOf(user));
    }

    /** `register`: the collection changes only when the response is 201. */
    method Register(req: RegisterRequest, nowMs: nat, freshId: string, dbFault: bool) returns (r: AuthResponse)
      requires Valid()
      modifies this
      ensures Valid()
      ensures (users, r) == RegisterOutcome(old(users), env, req, nowMs, freshId, dbFault)
      ensures r.Failed? ==> users == old(users)
    {
      if dbFault {
        return Failed(500, ServerError);
      }
      if req.username in users {
        return Failed(400, UserExists);
      }
      if req.password.None? {
        return Failed(500, ServerError);
      }
      var hashedPassword := env.hasher.hash(req.password.value);
      var newUser := NewUser(freshId, req.username, hashedPassword, req.role, req.name, nowMs);
      var saved := Save(users, newUser);
      if saved.Failure? {
        return Failed(500, ServerError);
      }
      var doc := saved.value;
      users := users[doc.username := doc];
      var token := Jwt.Sign(env.jwt, ClaimsOf(doc), env.Secret(), nowMs);
      r := Issued(201, token, ViewOf(doc));
    }
  }
}
