/**
 * The role set, the user record and the seed users of backend/src/data/users.ts.
 */
module Users {
  import opened Wrappers

  /** UserRole: the closed set 'worker' | 'doctor' | 'admin'. */
  datatype Role = Worker | Doctor | Admin

  /** The role names as they travel in JSON and are listed in the schema's enum. */
  const RoleNames: seq<string> := ["worker", "doctor", "admin"]

  function RoleName(r: Role): (s: string)
    ensures s in RoleNames
  {
    match r
    case Worker => "worker"
    case Doctor => "doctor"
    case Admin => "admin"
  }

  /** Reads a role name; only the three enum strings are roles. */
  function ParseRole(s: string): (r: Option<Role>)
    ensures r.Some? <==> s in RoleNames
    ensures r.Some? ==> RoleName(r.value) == s
  {
    if s == "worker" then Some(Worker)
    else if s == "doctor" then Some(Doctor)
    else if s == "admin" then Some(Admin)
    else None
  }

  /** A string names a role exactly when it is that role's name: the names and the roles are in one-to-one correspondence. */
  lemma ParseRoleExact(s: string, r: Role)
    ensures ParseRole(s) == Some(r) <==> s == RoleName(r)
  {
  }

  /** The `User` interface: the seed's record shape (its password is plaintext). */
  datatype User = User(id: string, username: string, password: string, role: Role, name: string)

  /** The initial mock users. */
  const Seed: seq<User> := [
    User("1", "worker1", "password123", Worker, "John Doe"),
    User("2", "doctor1", "password123", Doctor, "Dr. Smith"),
    User("3", "admin1", "password123", Admin, "System Admin")
  ]

  predicate UniqueUsernames(s: seq<User>)
  {
    forall i, j :: 0 <= i < j < |s| ==> s[i].username != s[j].username
  }

  predicate UniqueIds(s: seq<User>)
  {
    forall i, j :: 0 <= i < j < |s| ==> s[i].id != s[j].id
  }

  /** How many users of `s` hold role `r`. */
  function CountRole(s: seq<User>, r: Role): (n: nat)
    ensures n <= |s|
    ensures n == 0 <==> forall i :: 0 <= i < |s| ==> s[i].role != r
  {
    if s == [] then 0
    else CountRole(s[..|s| - 1], r) + (if s[|s| - 1].role == r then 1 else 0)
  }

  /** The usernames occurring in `s`. */
  function Usernames(s: seq<User>): set<string>
  {
    set i | 0 <= i < |s| :: s[i].username
  }

  /** A list of users as a store keyed by username (a later entry replaces an earlier one with the same name). */
  function Index(s: seq<User>): (m: map<string, User>)
    ensures m.Keys == Usernames(s)
    ensures forall u :: u in m ==> m[u].username == u
  {
    if s == [] then map[]
    else
      var init := s[..|s| - 1];
      assert forall i :: 0 <= i < |init| ==> init[i] == s[i];
      assert Usernames(s) == Usernames(init) + {s[|s| - 1].username};
      Index(init)[s[|s| - 1].username := s[|s| - 1]]
  }

  /** With distinct usernames, indexing loses nobody: the store has one entry per user and each user is found under its name. */
  lemma {:induction false} IndexComplete(s: seq<User>)
    requires UniqueUsernames(s)
    ensures |Index(s)| == |s|
    ensures forall i :: 0 <= i < |s| ==> Index(s)[s[i].username] == s[i]
  {
    if s != [] {
      var init := s[..|s| - 1];
      var last := s[|s| - 1];
      assert forall i :: 0 <= i < |init| ==> init[i] == s[i];
      assert UniqueUsernames(init);
      IndexComplete(init);
      assert last.username !in Index(init);
      assert Index(s) == Index(init)[last.username := last];
      assert |Index(s)| == |s|;
      forall i | 0 <= i < |s|
        ensures Index(s)[s[i].username] == s[i]
      {
        if i < |init| {
          assert init[i] == s[i] && s[i].username != last.username;
          assert Index(init)[init[i].username] == init[i];
        }
      }
    }
  }

  /** The seed holds three users, with pairwise distinct ids and usernames. */
  lemma SeedShape()
    ensures |Seed| == 3
    ensures UniqueIds(Seed)
    ensures UniqueUsernames(Seed)
  {
  }

  /** Every role appears exactly once among the seed users. */
  lemma SeedEachRoleOnce(r: Role)
    ensures CountRole(Seed, r) == 1
  {
    assert Seed[..2][..1] == [Seed[0]];
    assert Seed[..2] == [Seed[0], Seed[1]];
  }

  /** The seed as a store keyed by username: three entries, each user under its own name. */
  lemma SeedStore()
    ensures Index(Seed).Keys == {"worker1", "doctor1", "admin1"}
    ensures |Index(Seed)| == 3
    ensures Index(Seed)["worker1"] == Seed[0]
    ensures Index(Seed)["doctor1"] == Seed[1]
    ensures Index(Seed)["admin1"] == Seed[2]
    ensures Index(Seed) == map["worker1" := Seed[0], "doctor1" := Seed[1], "admin1" := Seed[2]]
  {
    SeedShape();
    IndexComplete(Seed);
    assert Usernames(Seed) == {"worker1", "doctor1", "admin1"} by {
      assert Seed[0].username == "worker1";
      assert Seed[1].username == "doctor1";
      assert Seed[2].username == "admin1";
    }
  }
}
