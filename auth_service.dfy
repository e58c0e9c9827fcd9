/**
 * `authService`: registration, login and profile lookup over the users table. Password hashing
 * is bcrypt's, given here as a pair of functions: `hash` with a salt chosen at random, and
 * `compare`, which accepts a password against any hash made from it.
 */
module AuthService {
  import opened Wrappers
  import opened Exceptions
  import Constants
  import Seqs

  type Id = string

  /** A row of the users table. `password` holds the hash, never the plain text. */
  datatype User = User(id: Id, username: string, email: string, password: string)

  datatype RegisterBody = RegisterBody(username: string, email: string, password: string)
  datatype LoginBody = LoginBody(email: string, password: string)

  const SaltRounds: nat := 10

  const EmailAlreadyRegistered: LiftError :=
    LiftError("Email already registered", Constants.BadRequest, Some("email"))
  const UsernameAlreadyTaken: LiftError :=
    LiftError("Username already taken", Constants.BadRequest, Some("username"))
  const InvalidCredentials: LiftError :=
    LiftError("Invalid credentials", Constants.Unauthorized, None)
  const UserNotFound: LiftError :=
    LiftError("User not found", Constants.NotFound, None)

  function UserEmail(u: User): string { u.email }
  function UserName(u: User): string { u.username }
  function UserId(u: User): Id { u.id }

  /** The table's unique columns: the primary key, `username` and `email`. */
  ghost predicate UniqueAccounts(users: seq<User>) {
    && Seqs.DistinctBy(users, UserId)
    && Seqs.DistinctBy(users, UserName)
    && Seqs.DistinctBy(users, UserEmail)
  }

  /** What bcrypt guarantees: a password matches every hash made from it. */
  ghost predicate CompareAcceptsHash(hash: (string, nat, string) -> string, compare: (string, string) -> bool) {
    forall password, rounds, salt :: compare(password, hash(password, rounds, salt))
  }

  /** `select … where email = ?`, first row. */
  function FindByEmail(users: seq<User>, email: string): (r: Option<User>)
    ensures r.None? <==> forall u :: u in users ==> u.email != email
    ensures r.Some? ==> r.value in users && r.value.email == email
    ensures r.Some? ==>
      exists i :: (0 <= i < |users| && users[i] == r.value &&
                   forall j :: 0 <= j < i ==> users[j].email != email)
  {
    if |users| == 0 then None
    else if users[0].email == email then Some(users[0])
    else
      var rest := FindByEmail(users[1..], email);
      assert forall u :: u in users ==> u == users[0] || u in users[1..];
      if rest.Some? then
        var i :| 0 <= i < |users[1..]| && users[1..][i] == rest.value &&
          forall j :: 0 <= j < i ==> users[1..][j].email != email;
        assert users[i + 1] == rest.value;
        rest
      else rest
  }

  /** `select … where id = ?`, first row. */
  function FindById(users: seq<User>, id: Id): (r: Option<User>)
    ensures r.None? <==> forall u :: u in users ==> u.id != id
    ensures r.Some? ==> r.value in users && r.value.id == id
    ensures r.Some? ==>
      exists i :: (0 <= i < |users| && users[i] == r.value &&
                   forall j :: 0 <= j < i ==> users[j].id != id)
  {
    if |users| == 0 then None
    else if users[0].id == id then Some(users[0])
    else
      var rest := FindById(users[1..], id);
      assert forall u :: u in users ==> u == users[0] || u in users[1..];
      if rest.Some? then
        var i :| 0 <= i < |users[1..]| && users[1..][i] == rest.value &&
          forall j :: 0 <= j < i ==> users[1..][j].id != id;
        assert users[i + 1] == rest.value;
        rest
      else rest
  }

  predicate EmailTaken(users: seq<User>, email: string) {
    |Seqs.Filter(users, (u: User) => u.email == email)| > 0
  }

  predicate UsernameTaken(users: seq<User>, username: string) {
    |Seqs.Filter(users, (u: User) => u.username == username)| > 0
  }

  lemma EmailTakenIff(users: seq<User>, email: string)
    ensures EmailTaken(users, email) <==> exists u :: u in users && u.email == email
  {
    var found := Seqs.Filter(users, (u: User) => u.email == email);
    if exists u :: u in users && u.email == email {
      var u :| u in users && u.email == email;
      assert u in found;
    }
    if |found| > 0 {
      assert found[0] in found;
    }
  }

  lemma UsernameTakenIff(users: seq<User>, username: string)
    ensures UsernameTaken(users, username) <==> exists u :: u in users && u.username == username
  {
    var found := Seqs.Filter(users, (u: User) => u.username == username);
    if exists u :: u in users && u.username == username {
      var u :| u in users && u.username == username;
      assert u in found;
    }
    if |found| > 0 {
      assert found[0] in found;
    }
  }

  /**
   * `login`'s answer: the user with that email when the password matches its hash; an unknown
   * email and a wrong password give the very same error.
   */
  function LoginResult(users: seq<User>, data: LoginBody, compare: (string, string) -> bool): (r: Result<User, LiftError>)
    ensures r.Fail? ==> r.error == InvalidCredentials
    ensures r.Ok? ==> r.value in users && r.value.email == data.email && compare(data.password, r.value.password)
    ensures UniqueAccounts(users) ==>
      (r.Ok? <==> exists u :: u in users && u.email == data.email && compare(data.password, u.password))
  {
    var found := FindByEmail(users, data.email);
    if found.None? then Fail(InvalidCredentials)
    else if !compare(data.password, found.value.password) then
      assert UniqueAccounts(users) ==> forall u :: u in users && u.email == data.email ==> u == found.value by {
        if UniqueAccounts(users) {
          forall u | u in users && u.email == data.email ensures u == found.value {
            var i :| 0 <= i < |users| && users[i] == u;
            var j :| 0 <= j < |users| && users[j] == found.value;
            assert UserEmail(users[i]) == UserEmail(users[j]);
          }
        }
      }
      Fail(InvalidCredentials)
    else Ok(found.value)
  }

  /** `getProfile`'s answer: the user with that id, or "User not found" (404). */
  function ProfileResult(users: seq<User>, userId: Id): (r: Result<User, LiftError>)
    ensures r.Fail? <==> forall u :: u in users ==> u.id != userId
    ensures r.Fail? ==> r.error == UserNotFound
    ensures r.Ok? ==> r.value in users && r.value.id == userId
  {
    var found := FindById(users, userId);
    if found.None? then Fail(UserNotFound) else Ok(found.value)
  }

  /** Appending an account whose id, username and email are all new keeps every column unique. */
  lemma {:induction false} AddAccountKeepsUnique(users: seq<User>, user: User)
    requires UniqueAccounts(users)
    requires forall u :: u in users ==> u.id != user.id && u.username != user.username && u.email != user.email
    ensures UniqueAccounts(users + [user])
  {
    AppendKeepsDistinctBy(users, user, UserId);
    AppendKeepsDistinctBy(users, user, UserName);
    AppendKeepsDistinctBy(users, user, UserEmail);
  }

  lemma AppendKeepsDistinctBy<K>(users: seq<User>, user: User, key: User -> K)
    requires Seqs.DistinctBy(users, key)
    requires forall u :: u in users ==> key(u) != key(user)
    ensures Seqs.DistinctBy(users + [user], key)
  {
    var all := users + [user];
    forall i, j | 0 <= i < j < |all| ensures key(all[i]) != key(all[j]) {
      assert all[i] == users[i];
    }
  }

  /** A freshly registered account logs in with the password it registered with. */
  lemma {:induction false} RegisteredUserCanLogIn(
    users: seq<User>, user: User, password: string, salt: string,
    hash: (string, nat, string) -> string, compare: (string, string) -> bool)
    requires CompareAcceptsHash(hash, compare)
    requires forall u :: u in users ==> u.email != user.email
    requires user.password == hash(password, SaltRounds, salt)
    ensures LoginResult(users + [user], LoginBody(user.email, password), compare) == Ok(user)
  {
    var all := users + [user];
    var found := FindByEmail(all, user.email);
    assert forall j :: 0 <= j < |users| ==> all[j] == users[j];
    var i :| 0 <= i < |all| && all[i] == found.value && forall j :: 0 <= j < i ==> all[j].email != user.email;
    assert i == |users|;
  }

  class UserTable {
    var users: seq<User>
    const hash: (string, nat, string) -> string
    const compare: (string, string) -> bool

    ghost predicate Valid()
      reads this
    {
      UniqueAccounts(users) && CompareAcceptsHash(hash, compare)
    }

    constructor (hash: (string, nat, string) -> string, compare: (string, string) -> bool)
      requires CompareAcceptsHash(hash, compare)
      ensures users == [] && this.hash == hash && this.compare == compare
      ensures Valid()
    {
      users := [];
      this.hash := hash;
      this.compare := compare;
    }

    /**
     * `register`: the email is checked first, then the username; a new account is stored with
     * the password's hash (made with a random `salt`) under the id the database generates
     * (`freshId`), and returned.
     */
    method Register(data: RegisterBody, salt: string, freshId: Id) returns (r: Result<User, LiftError>)
      modifies this`users
      ensures EmailTaken(old(users), data.email) ==>
        r == Fail(EmailAlreadyRegistered) && users == old(users)
      ensures !EmailTaken(old(users), data.email) && UsernameTaken(old(users), data.username) ==>
        r == Fail(UsernameAlreadyTaken) && users == old(users)
      ensures !EmailTaken(old(users), data.email) && !UsernameTaken(old(users), data.username) ==>
        && r == Ok(User(freshId, data.username, data.email, hash(data.password, SaltRounds, salt)))
        && users == old(users) + [r.value]
      ensures old(Valid()) && (forall u :: u in old(users) ==> u.id != freshId) ==> Valid()
    {
      var existingEmail := Seqs.Filter(users, (u: User) => u.email == data.email);
      if |existingEmail| > 0 {
        return Fail(EmailAlreadyRegistered);
      }
      var existingUsername := Seqs.Filter(users, (u: User) => u.username == data.username);
      if |existingUsername| > 0 {
        return Fail(UsernameAlreadyTaken);
      }
      var hashedPassword := hash(data.password, SaltRounds, salt);
      var user := User(freshId, data.username, data.email, hashedPassword);
      if old(Valid()) && forall u :: u in users ==> u.id != freshId {
        EmailTakenIff(users, data.email);
        UsernameTakenIff(users, data.username);
        AddAccountKeepsUnique(users, user);
      }
      users := users + [user];
      return Ok(user);
    }

    /** `login`; the table is only read. */
    method Login(data: LoginBody) returns (r: Result<User, LiftError>)
      ensures r == LoginResult(users, data, compare)
    {
      var found := FindByEmail(users, data.email);
      if found.None? {
        return Fail(InvalidCredentials);
      }
      var validPassword := compare(data.password, found.value.password);
      if !validPassword {
        return Fail(InvalidCredentials);
      }
      return Ok(found.value);
    }

    /** `getProfile`; the table is only read. */
    method GetProfile(userId: Id) returns (r: Result<User, LiftError>)
      ensures r == ProfileResult(users, userId)
    {
      var found := FindById(users, userId);
      if found.None? {
        return Fail(UserNotFound);
      }
      return Ok(found.value);
    }
  }

  /** Registering, then logging in with the same email and password, succeeds with the new account. */
  method RegisterThenLogIn(table: UserTable, data: RegisterBody, salt: string, freshId: Id)
    returns (registered: Result<User, LiftError>, loggedIn: Result<User, LiftError>)
    requires table.Valid()
    modifies table`users
    ensures registered.Ok? ==> loggedIn == registered
  {
    registered := table.Register(data, salt, freshId);
    if registered.Ok? {
      EmailTakenIff(old(table.users), data.email);
      RegisteredUserCanLogIn(old(table.users), registered.value, data.password, salt, table.hash, table.compare);
    }
    loggedIn := table.Login(LoginBody(data.email, data.password));
  }
}
