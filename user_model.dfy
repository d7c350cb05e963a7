/**
 * The Mongoose `User` schema of backend/src/models/User.ts: how a new
 * document gets its defaults, what `save` validates, and the invariant the
 * stored collection keeps.
 */
module UserModel {
  import opened Wrappers
  import opened Users

  /** A stored user document; `id` is its `_id`, `password` the stored digest, `createdAt` in milliseconds. */
  datatype UserDoc = UserDoc(id: string, username: string, password: string, role: Role, name: string, createdAt: int)

  /**
   * A document built by `new User({...})` and not yet validated: the role
   * default is applied, the role is still the string the request sent, and
   * the name may be missing.
   */
  datatype Draft = Draft(id: string, username: string, password: string, role: string, name: Option<string>, createdAt: int)

  datatype SaveError = ValidationError | DuplicateKey

  const DefaultRole: Role := Worker

  /** A `required: true` String path rejects a missing value and the empty string. */
  predicate Required(s: string)
  {
    s != ""
  }

  /** The per-record constraints: username, password and name are present; the role is in the enum by its type. */
  predicate ValidDoc(d: UserDoc)
  {
    Required(d.username) && Required(d.password) && Required(d.name)
  }

  /** The collection keyed by username: each key is its record's username, every record is valid, and `_id`s are unique. */
  ghost predicate StoreInvariant(users: map<string, UserDoc>)
    ensures StoreInvariant(users) ==>
              forall u, v :: u in users && v in users && users[u].username == users[v].username ==> u == v
  {
    && (forall u :: u in users ==> users[u].username == u && ValidDoc(users[u]))
    && (forall u, v :: u in users && v in users && users[u].id == users[v].id ==> u == v)
  }

  /** `new User({username, password, role, name})` with a fresh `_id` and the clock reading `nowMs`. */
  function NewUser(id: string, username: string, password: string, role: Option<string>, name: Option<string>, nowMs: int): Draft
  {
    Draft(id, username, password, if role.Some? then role.value else RoleName(DefaultRole), name, nowMs)
  }

  /** Schema validation, run by `save`. */
  function Validate(d: Draft): (r: Result<UserDoc, SaveError>)
    ensures r.Success? <==> Required(d.username) && Required(d.password) && ParseRole(d.role).Some?
                            && d.name.Some? && Required(d.name.value)
    ensures r.Success? ==> ValidDoc(r.value) && RoleName(r.value.role) == d.role
    ensures r.Success? ==> r.value == UserDoc(d.id, d.username, d.password, r.value.role, d.name.value, d.createdAt)
    ensures r.Failure? ==> r.error == ValidationError
  {
    if !Required(d.username) || !Required(d.password) then Failure(ValidationError)
    else match (ParseRole(d.role), d.name)
      case (Some(role), Some(name)) =>
        if Required(name) then Success(UserDoc(d.id, d.username, d.password, role, name, d.createdAt))
        else Failure(ValidationError)
      case _ => Failure(ValidationError)
  }

  predicate IdInUse(users: map<string, UserDoc>, id: string)
  {
    exists u :: u in users && users[u].id == id
  }

  /** `save()`: validation, then the unique indexes on `username` and `_id`. */
  function Save(users: map<string, UserDoc>, d: Draft): (r: Result<UserDoc, SaveError>)
    ensures r.Success? ==> Validate(d) == r && r.value.username !in users && !IdInUse(users, r.value.id)
    ensures r.Success? <==> Validate(d).Success? && d.username !in users && !IdInUse(users, d.id)
  {
    match Validate(d)
    case Failure(e) => Failure(e)
    case Success(doc) =>
      if doc.username in users || IdInUse(users, doc.id) then Failure(DuplicateKey) else Success(doc)
  }

  /** Adding a document that `save` accepted keeps the collection invariant. */
  lemma SavePreservesInvariant(users: map<string, UserDoc>, d: Draft)
    requires StoreInvariant(users)
    requires Save(users, d).Success?
    ensures StoreInvariant(users[d.username := Save(users, d).value])
  {
  }

  /**
   * The schema defaults: a document saved without a role gets role worker, one
   * with a role outside the enum is rejected, and `createdAt` is the clock
   * reading at construction.
   */
  lemma NewUserDefaults(id: string, username: string, password: string, role: Option<string>, name: Option<string>, nowMs: int)
    ensures var r := Validate(NewUser(id, username, password, role, name, nowMs));
            && (role.None? && r.Success? ==> r.value.role == Worker)
            && (role.Some? && r.Success? ==> RoleName(r.value.role) == role.value)
            && (role.Some? && role.value !in RoleNames ==> r == Failure(ValidationError))
            && (r.Success? ==> r.value.createdAt == nowMs)
  {
  }

  /** The seed users meet the schema's field constraints, and their usernames and ids are unique. */
  lemma SeedMeetsSchema()
    ensures forall i :: 0 <= i < |Seed| ==> Required(Seed[i].username) && Required(Seed[i].password) && Required(Seed[i].name)
    ensures UniqueUsernames(Seed) && UniqueIds(Seed)
  {
    SeedShape();
  }

  /** A seed user as a stored document created at `createdAt`. */
  function SeedDoc(u: User, createdAt: int): UserDoc
  {
    UserDoc(u.id, u.username, u.password, u.role, u.name, createdAt)
  }

  /** The seed store as documents, all created at `createdAt`. */
  function SeedDocs(createdAt: int): map<string, UserDoc>
  {
    map k | k in Index(Seed) :: SeedDoc(Index(Seed)[k], createdAt)
  }

  /** Three valid documents keyed by their distinct usernames, with distinct ids, form a valid collection. */
  lemma LiteralStoreInvariant(w: UserDoc, d: UserDoc, a: UserDoc)
    requires ValidDoc(w) && ValidDoc(d) && ValidDoc(a)
    requires w.username == "worker1" && d.username == "doctor1" && a.username == "admin1"
    requires w.id != d.id && w.id != a.id && d.id != a.id
    ensures StoreInvariant(map["worker1" := w, "doctor1" := d, "admin1" := a])
  {
  }

  /** The seed, loaded as documents at any creation time, satisfies the collection invariant. */
  lemma SeedSatisfiesStoreInvariant(createdAt: int)
    ensures StoreInvariant(SeedDocs(createdAt))
    ensures SeedDocs(createdAt).Keys == {"worker1", "doctor1", "admin1"}
  {
    SeedStore();
    var w, d, a := SeedDoc(Seed[0], createdAt), SeedDoc(Seed[1], createdAt), SeedDoc(Seed[2], createdAt);
    assert SeedDocs(createdAt) == map["worker1" := w, "doctor1" := d, "admin1" := a];
    LiteralStoreInvariant(w, d, a);
  }
}
