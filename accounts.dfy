/**
 * The users table and the account rules of the sign-up and login pages: the ordered
 * validation chain of sign-up and the credential decision of login.
 */
module Accounts {
  import opened Wrappers
  import opened Passwords

  /** A row of `users`. */
  datatype UserRecord = UserRecord(
    id: nat, username: string, email: string, passwordHash: PasswordHash, createdAt: nat)

  /** `users`, keyed by its UNIQUE `username` column. */
  type UserTable = map<string, UserRecord>

  /** Every row sits under its own username. */
  predicate KeyedByUsername(users: UserTable) {
    forall u :: u in users ==> users[u].username == u
  }

  /** `id` is the primary key: no two rows share one. */
  predicate IdsUnique(users: UserTable) {
    forall u, v :: u in users && v in users && users[u].id == users[v].id ==> u == v
  }

  /** The username of the row with primary key `id`, as `JOIN users u ON r.user_id = u.id` finds it. */
  function UsernameById(users: UserTable, id: nat): (r: Option<string>)
    requires IdsUnique(users)
    ensures r.None? <==> forall u :: u in users ==> users[u].id != id
    ensures r.Some? ==> r.value in users && users[r.value].id == id
  {
    if exists u :: u in users && users[u].id == id then
      var u :| u in users && users[u].id == id; Some(u)
    else None
  }

  // ---------------------------------------------------------------- sign-up

  datatype SignupError = IncompleteFields | UsernameTaken | PasswordMismatch | PasswordTooShort

  /**
   * The checks of the sign-up form, in order; the first that fails decides the error.
   * `username` and `email` are already stripped, `taken` says whether the username exists.
   */
  function SignupCheck(username: string, email: string, password: string, confirm: string, taken: bool)
    : (r: Option<SignupError>)
    ensures r == Some(IncompleteFields) <==> username == [] || email == [] || password == []
    ensures r == Some(UsernameTaken) <==> username != [] && email != [] && password != [] && taken
    ensures r == Some(PasswordMismatch) <==>
              username != [] && email != [] && password != [] && !taken && password != confirm
    ensures r == Some(PasswordTooShort) <==>
              username != [] && email != [] && password != [] && !taken && password == confirm
              && |password| < 6
    ensures r == None <==>
              username != [] && email != [] && !taken && password == confirm && |password| >= 6
  {
    if username == [] || email == [] || password == [] then Some(IncompleteFields)
    else if taken then Some(UsernameTaken)
    else if password != confirm then Some(PasswordMismatch)
    else if |password| < 6 then Some(PasswordTooShort)
    else None
  }

  // ---------------------------------------------------------------- login

  datatype LoginResult = MissingCredentials | InvalidCredentials | LoggedIn(username: string)

  /**
   * The login decision for a stripped username and a password: both must be non-empty,
   * the user must exist and the stored hash must accept the password. An unknown user and
   * a wrong password give the same answer.
   */
  function Authenticate(users: UserTable, digestOf: (string, string) -> string, username: string, password: string)
    : (r: LoginResult)
    ensures r.MissingCredentials? <==> username == [] || password == []
    ensures r.LoggedIn? <==>
              username != [] && password != [] && username in users
              && CheckPasswordHash(digestOf, users[username].passwordHash, password)
    ensures r.LoggedIn? ==> r.username == users[username].username
  {
    if username == [] || password == [] then MissingCredentials
    else if username in users && CheckPasswordHash(digestOf, users[username].passwordHash, password) then
      LoggedIn(users[username].username)
    else InvalidCredentials
  }

  /**
   * After a sign-up that passed every check, logging in with the same username and password
   * succeeds, and, when the digest has no collisions, any other password is refused.
   */
  lemma SignupThenLogin(users: UserTable, digestOf: (string, string) -> string,
                        username: string, email: string, password: string, confirm: string,
                        salt: string, id: nat, now: nat, attempt: string)
    requires SignupCheck(username, email, password, confirm, username in users) == None
    ensures var users' := users[username := UserRecord(id, username, email,
                                            GeneratePasswordHash(digestOf, password, salt), now)];
            && Authenticate(users', digestOf, username, password) == LoggedIn(username)
            && (CollisionFree(digestOf) && attempt != password ==>
                  !Authenticate(users', digestOf, username, attempt).LoggedIn?)
  {
    CheckGenerated(digestOf, password, salt, attempt);
  }
}
