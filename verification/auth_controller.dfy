/** The auth controller: `register` and `login` as transitions over the user
    store. The store is the users collection in insertion order; a lookup by
    username returns the first match, as a `findOne` query does. */
module AuthController {
  import opened Results
  import opened Primitives

  /** A stored user. The password field holds the bcrypt digest. */
  datatype User = User(id: UserId, name: string, username: string, password: Digest)

  /** The user part of a login response: it has no password field at all. */
  datatype UserSummary = UserSummary(id: UserId, name: string, username: string)

  /** The users collection and the identifier the next registration receives. */
  datatype UserStore = UserStore(users: seq<User>, nextId: nat)

  /** The answers register and login give instead of success: 400
      'Username already exists', 404 'User not found', 400 'Invalid credentials'. */
  datatype AuthError = UsernameTaken | UserNotFound | InvalidCredentials

  /** A successful login: the signed token and the user summary. */
  datatype Session = Session(token: Token, user: UserSummary)

  /** The store invariant: usernames are unique, and identifiers grow with
      insertion and stay below the next one to be handed out. */
  ghost predicate Valid(s: UserStore) {
    && (forall i, j :: 0 <= i < j < |s.users| ==> s.users[i].username != s.users[j].username)
    && (forall i, j :: 0 <= i < j < |s.users| ==> s.users[i].id < s.users[j].id)
    && (forall i :: 0 <= i < |s.users| ==> s.users[i].id < s.nextId)
  }

  /** Some user in `users` has the username `username`. */
  ghost predicate HasUsername(users: seq<User>, username: string) {
    exists i :: 0 <= i < |users| && users[i].username == username
  }

  /** `i` is the position of the first user named `username`. */
  ghost predicate IsFirstWith(users: seq<User>, username: string, i: int) {
    && 0 <= i < |users|
    && users[i].username == username
    && forall j :: 0 <= j < i ==> users[j].username != username
  }

  /** The lookup `findOne({ username })`: the position of the first user with
      that username, if there is one. */
  function FindByUsername(users: seq<User>, username: string): (r: Option<nat>)
    ensures r.None? <==> !HasUsername(users, username)
    ensures r.Some? ==> IsFirstWith(users, username, r.value)
    decreases |users|
  {
    if |users| == 0 then None
    else if users[0].username == username then Some(0)
    else
      match FindByUsername(users[1..], username)
      case None =>
        assert forall i :: 0 < i < |users| ==> users[i] == users[1..][i - 1];
        None
      case Some(k) =>
        assert forall j :: 0 < j <= k + 1 ==> users[j] == users[1..][j - 1];
        Some(k + 1)
  }

  /** In a valid store the first user with a username is the only one. */
  lemma FirstIsOnly(s: UserStore, username: string, i: int)
    requires Valid(s)
    requires 0 <= i < |s.users| && s.users[i].username == username
    ensures IsFirstWith(s.users, username, i)
  {
  }

  /** `register`: rejects a taken username; otherwise stores a new user whose
      password field is the hash of the password under `salt`. */
  function Register(c: Crypto, salt: Salt, s: UserStore, name: string, username: string, password: string)
    : (t: Transition<(), AuthError, UserStore>)
    ensures HasUsername(s.users, username) ==> t == Transition(Err(UsernameTaken), s)
    ensures !HasUsername(s.users, username) ==>
              && t.result.Ok?
              && t.next.nextId == s.nextId + 1
              && |t.next.users| == |s.users| + 1
              && t.next.users[..|s.users|] == s.users
              && t.next.users[|s.users|] == User(s.nextId, name, username, c.hash(password, salt))
  {
    match FindByUsername(s.users, username)
    case Some(_) => Transition(Err(UsernameTaken), s)
    case None =>
      var user := User(s.nextId, name, username, c.hash(password, salt));
      Transition(Ok(()), UserStore(s.users + [user], s.nextId + 1))
  }

  /** Registration keeps usernames unique and identifiers fresh. */
  lemma RegisterPreservesValid(c: Crypto, salt: Salt, s: UserStore, name: string, username: string, password: string)
    requires Valid(s)
    ensures Valid(Register(c, salt, s, name, username, password).next)
  {
  }

  /** `login`: looks the user up, checks the password against the stored
      digest, and only then signs a token for the user's identifier. */
  function Login(c: Crypto, secret: Secret, nowMs: nat, s: UserStore, username: string, password: string)
    : (r: Result<Session, AuthError>)
    ensures r == Err(UserNotFound) <==> !HasUsername(s.users, username)
    ensures r == Err(InvalidCredentials) <==>
              exists i :: IsFirstWith(s.users, username, i) && !c.compare(password, s.users[i].password)
    ensures forall i :: IsFirstWith(s.users, username, i) && c.compare(password, s.users[i].password) ==>
              r == Ok(Session(IssueToken(c, secret, s.users[i].id, nowMs),
                              UserSummary(s.users[i].id, s.users[i].name, s.users[i].username)))
  {
    match FindByUsername(s.users, username)
    case None => Err(UserNotFound)
    case Some(i) =>
      var user := s.users[i];
      if !c.compare(password, user.password) then Err(InvalidCredentials)
      else Ok(Session(IssueToken(c, secret, user.id, nowMs), UserSummary(user.id, user.name, user.username)))
  }

  /** In a valid store, login for a stored user's username succeeds exactly when
      the password matches that user's digest, and then answers for that user. */
  lemma LoginStoredUser(c: Crypto, secret: Secret, nowMs: nat, s: UserStore, i: int, password: string)
    requires Valid(s)
    requires 0 <= i < |s.users|
    ensures var r := Login(c, secret, nowMs, s, s.users[i].username, password);
            && (r.Ok? <==> c.compare(password, s.users[i].password))
            && (r.Ok? ==> r.value.token.claims.id == s.users[i].id && r.value.user.id == s.users[i].id)
            && (r.Err? ==> r.error == InvalidCredentials)
  {
  }

  /** Registering and then logging in with the same credentials succeeds, and
      the token is bound to the identifier the registration handed out. */
  lemma RegisterThenLogin(c: Crypto, salt: Salt, secret: Secret, nowMs: nat, s: UserStore,
                          name: string, username: string, password: string)
    requires Sound(c)
    requires !HasUsername(s.users, username)
    ensures Register(c, salt, s, name, username, password).result.Ok?
    ensures Login(c, secret, nowMs, Register(c, salt, s, name, username, password).next, username, password)
            == Ok(Session(IssueToken(c, secret, s.nextId, nowMs), UserSummary(s.nextId, name, username)))
  {
  }

  /** After a registration, logging in with a password that does not match the
      stored digest is rejected as invalid credentials and yields no token. */
  lemma RegisterThenWrongPassword(c: Crypto, salt: Salt, secret: Secret, nowMs: nat, s: UserStore,
                                  name: string, username: string, password: string, attempt: string)
    requires !HasUsername(s.users, username)
    requires !c.compare(attempt, c.hash(password, salt))
    ensures Login(c, secret, nowMs, Register(c, salt, s, name, username, password).next, username, attempt)
            == Err(InvalidCredentials)
  {
  }
}
