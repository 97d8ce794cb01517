/** routes/auth.js: register and login. server.js repeats both handlers word for word
    except for the lower-case "required" messages; `Variant` selects those. */
module Accounts {
  import opened Wrappers
  import opened Collections
  import opened Tokens
  import opened Store
  import Text
  import Gate

  /** routes/auth.js with routes/users.js, or the self-contained server.js. */
  datatype Variant = Routes | Standalone

  function RegisterRequiredMessage(v: Variant): string
  {
    match v
    case Routes => "Username, email and password are required"
    case Standalone => "username, email and password are required"
  }

  function LoginRequiredMessage(v: Variant): string
  {
    match v
    case Routes => "Username and password are required"
    case Standalone => "username and password are required"
  }

  const InUseMessage := "Username or email already in use"
  const InvalidCredentialsMessage := "Invalid credentials"

  /** `{ token, user: user.toJSON() }`. */
  datatype Session = Session(token: string, user: map<string, Json>)

  function SessionFor(env: Env, u: User, nowMs: nat): (s: Session)
    ensures "password" !in s.user && "__v" !in s.user
  {
    Session(Issue(env, u.id, nowMs), UserToJson(u))
  }

  // ---------------------------------------------------------------------------
  // Register

  /** The register request body; `None` is an absent field. */
  datatype RegisterBody = RegisterBody(
    username: Option<string>,
    email: Option<string>,
    password: Option<string>,
    firstName: Option<string>,
    lastName: Option<string>,
    phone: Option<string>,
    address: Option<string>)

  /** `User.findOne({ $or: [{ username }, { email }] })` finds someone. */
  predicate NameOrEmailTaken(users: seq<User>, username: string, email: string)
  {
    exists i :: 0 <= i < |users| && (users[i].username == username || users[i].email == email)
  }

  /** `POST /api/auth/register`: the user record to insert (with the fresh document id
      `newId` and the time `nowMs`), or the refusal. */
  function RegisterReply(v: Variant, users: seq<User>, env: Env, body: RegisterBody, newId: Id, nowMs: int): (r: Reply<User>)
    ensures !(Given(body.username) && Given(body.email) && Given(body.password)) <==>
      r == Fail(400, RegisterRequiredMessage(v))
    ensures (Given(body.username) && Given(body.email) && Given(body.password)
      && NameOrEmailTaken(users, body.username.value, body.email.value)) ==> r == Fail(400, InUseMessage)
    ensures r.Ok? <==> (Given(body.username) && Given(body.email) && Given(body.password)
      && !NameOrEmailTaken(users, body.username.value, body.email.value))
    ensures r.Ok? ==> (
      && r.value.id == newId && r.value.username == body.username.value && r.value.email == body.email.value
      && r.value.password == env.hash(body.password.value)
      && r.value.firstName == body.firstName && r.value.lastName == body.lastName
      && r.value.phone == body.phone && r.value.address == body.address)
  {
    if !(Given(body.username) && Given(body.email) && Given(body.password)) then Fail(400, RegisterRequiredMessage(v))
    else if NameOrEmailTaken(users, body.username.value, body.email.value) then Fail(400, InUseMessage)
    else
      Ok(User(newId, body.username.value, body.email.value, env.hash(body.password.value),
              body.firstName, body.lastName, body.phone, body.address, nowMs))
  }

  /** A registration that is accepted keeps every user's id, username and email distinct
      and every username and email non-empty. */
  lemma RegisterKeepsUsersValid(v: Variant, users: seq<User>, env: Env, body: RegisterBody, newId: Id, nowMs: int)
    requires UsersUnique(users) && UsersComplete(users)
    requires forall i :: 0 <= i < |users| ==> users[i].id != newId
    ensures var r := RegisterReply(v, users, env, body, newId, nowMs);
      r.Ok? ==> UsersUnique(users + [r.value]) && UsersComplete(users + [r.value])
  {
    var r := RegisterReply(v, users, env, body, newId, nowMs);
    if r.Ok? {
      var s := users + [r.value];
      forall i, j | 0 <= i < j < |s|
        ensures s[i].id != s[j].id && s[i].username != s[j].username && s[i].email != s[j].email
      {
        if j == |users| {
          assert s[i] == users[i];
        }
      }
    }
  }

  /** Once a name or an address is registered, registering it again is refused. */
  lemma RegisterTwiceRefused(v: Variant, users: seq<User>, env: Env, body: RegisterBody, again: RegisterBody, newId: Id, otherId: Id, nowMs: int, laterMs: int)
    requires RegisterReply(v, users, env, body, newId, nowMs).Ok?
    requires Given(again.username) && Given(again.email) && Given(again.password)
    requires again.username == body.username || again.email == body.email
    ensures RegisterReply(v, users + [RegisterReply(v, users, env, body, newId, nowMs).value], env, again, otherId, laterMs)
      == Fail(400, InUseMessage)
  {
    var u := RegisterReply(v, users, env, body, newId, nowMs).value;
    assert (users + [u])[|users|] == u;
  }

  // ---------------------------------------------------------------------------
  // Login

  datatype LoginBody = LoginBody(username: Option<string>, password: Option<string>)

  /** The position of `User.findOne({ username })`. */
  function UsernameIndex(users: seq<User>, username: string): (r: Option<nat>)
    ensures r.Some? ==> r.value < |users| && users[r.value].username == username
    ensures r.None? <==> forall i :: 0 <= i < |users| ==> users[i].username != username
  {
    FirstIndex(users, (u: User) => u.username == username)
  }

  /** `POST /api/auth/login` at time `nowMs`. */
  function LoginReply(v: Variant, users: seq<User>, env: Env, body: LoginBody, nowMs: nat): (r: Reply<Session>)
    ensures r.Fail? ==> r.status == 400
    ensures !(Given(body.username) && Given(body.password)) <==> r == Fail(400, LoginRequiredMessage(v))
    ensures r.Ok? ==> exists i :: (0 <= i < |users| && users[i].username == body.username.value
      && PasswordMatches(env, body.password.value, users[i].password) && r.value == SessionFor(env, users[i], nowMs))
  {
    if !(Given(body.username) && Given(body.password)) then Fail(400, LoginRequiredMessage(v))
    else
      match UsernameIndex(users, body.username.value)
      case None => Fail(400, InvalidCredentialsMessage)
      case Some(i) =>
        if !PasswordMatches(env, body.password.value, users[i].password) then Fail(400, InvalidCredentialsMessage)
        else Ok(SessionFor(env, users[i], nowMs))
  }

  /** An unknown username and a wrong password get the very same answer: with both
      fields given, login fails exactly when no user holds that name with that
      password, and every such failure is the one "Invalid credentials" reply. */
  lemma LoginFailuresIndistinguishable(v: Variant, users: seq<User>, env: Env, body: LoginBody, nowMs: nat)
    requires UsersUnique(users)
    requires Given(body.username) && Given(body.password)
    ensures var r := LoginReply(v, users, env, body, nowMs);
      && (r.Fail? ==> r == Fail(400, InvalidCredentialsMessage))
      && (r.Fail? <==> !exists i :: (0 <= i < |users| && users[i].username == body.username.value
            && PasswordMatches(env, body.password.value, users[i].password)))
  {
    var r := LoginReply(v, users, env, body, nowMs);
    var found := UsernameIndex(users, body.username.value);
    if found.Some? && r.Fail? {
      forall i | 0 <= i < |users| && users[i].username == body.username.value
        ensures i == found.value
      {
        assert users[i].username == users[found.value].username;
      }
    }
  }

  /** Whoever just registered can log in with the same name and password, and the
      session names the new user. */
  lemma RegisterThenLogin(v: Variant, w: Variant, users: seq<User>, env: Env, body: RegisterBody, newId: Id, nowMs: int, laterMs: nat)
    requires RegisterReply(v, users, env, body, newId, nowMs).Ok?
    ensures var u := RegisterReply(v, users, env, body, newId, nowMs).value;
      LoginReply(w, users + [u], env, LoginBody(body.username, body.password), laterMs) == Ok(SessionFor(env, u, laterMs))
  {
    var u := RegisterReply(v, users, env, body, newId, nowMs).value;
    var s := users + [u];
    assert s[|users|] == u;
    assert forall i :: 0 <= i < |users| ==> s[i].username != u.username;
  }

  /** `POST /api/auth/register`: the checks, then one insert and a session for the new
      user. */
  method Register(db: Db, v: Variant, env: Env, body: RegisterBody, newId: Id, nowMs: nat) returns (r: Reply<Session>)
    requires db.Valid()
    requires forall i :: 0 <= i < |db.users| ==> db.users[i].id != newId
    modifies db`users
    ensures db.Valid()
    ensures var reply := RegisterReply(v, old(db.users), env, body, newId, nowMs);
      if reply.Fail? then r == Fail(reply.status, reply.message) && db.users == old(db.users)
      else r == Ok(SessionFor(env, reply.value, nowMs)) && db.users == old(db.users) + [reply.value]
  {
    if !Given(body.username) || !Given(body.email) || !Given(body.password) {
      return Fail(400, RegisterRequiredMessage(v));
    }
    if NameOrEmailTaken(db.users, body.username.value, body.email.value) {
      return Fail(400, InUseMessage);
    }
    var hashed := env.hash(body.password.value);
    var user := User(newId, body.username.value, body.email.value, hashed,
                     body.firstName, body.lastName, body.phone, body.address, nowMs);
    RegisterKeepsUsersValid(v, db.users, env, body, newId, nowMs);
    db.users := db.users + [user];
    r := Ok(SessionFor(env, user, nowMs));
  }
}
