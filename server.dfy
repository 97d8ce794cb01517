/** server.js: the self-contained server, which mounts none of the route files and
    defines its own user model, gate and account handlers. Its register, login and
    profile handlers repeat the routes' rules (only the "required" messages are in lower
    case); deleting an account removes the user record and nothing else. Its profile read
    is registered after the `GET *` page fallback, which answers first, so it is not
    modelled here. */
module ServerApp {
  import opened Wrappers
  import opened Tokens
  import opened Store
  import Gate
  import Accounts
  import Users

  /** server.js's register and login answer exactly as the route files do, except that
      the message for missing fields starts with a lower-case letter. */
  lemma AnswersLikeRoutes(users: seq<User>, env: Env, register: Accounts.RegisterBody, login: Accounts.LoginBody, newId: Id, nowMs: nat)
    ensures var mine := Accounts.RegisterReply(Accounts.Standalone, users, env, register, newId, nowMs);
      var theirs := Accounts.RegisterReply(Accounts.Routes, users, env, register, newId, nowMs);
      mine == if theirs == Fail(400, Accounts.RegisterRequiredMessage(Accounts.Routes))
        then Fail(400, "username, email and password are required") else theirs
    ensures var mine := Accounts.LoginReply(Accounts.Standalone, users, env, login, nowMs);
      var theirs := Accounts.LoginReply(Accounts.Routes, users, env, login, nowMs);
      mine == if theirs == Fail(400, Accounts.LoginRequiredMessage(Accounts.Routes))
        then Fail(400, "username and password are required") else theirs
  {
  }

  /** `POST /api/auth/register` in server.js. */
  method Register(db: Db, env: Env, body: Accounts.RegisterBody, newId: Id, nowMs: nat) returns (r: Reply<Accounts.Session>)
    requires db.Valid()
    requires forall i :: 0 <= i < |db.users| ==> db.users[i].id != newId
    modifies db`users
    ensures db.Valid()
    ensures var reply := Accounts.RegisterReply(Accounts.Standalone, old(db.users), env, body, newId, nowMs);
      if reply.Fail? then r == Fail(reply.status, reply.message) && db.users == old(db.users)
      else r == Ok(Accounts.SessionFor(env, reply.value, nowMs)) && db.users == old(db.users) + [reply.value]
  {
    r := Accounts.Register(db, Accounts.Standalone, env, body, newId, nowMs);
  }

  /** `PUT /api/users/profile` in server.js: the same allow-list, uniqueness checks and
      password rule as routes/users.js. */
  method UpdateProfile(db: Db, header: Option<string>, env: Env, nowMs: nat, body: map<string, Json>) returns (r: Reply<map<string, Json>>)
    requires db.Valid()
    modifies db`users
    ensures db.Valid()
    ensures var gate := Gate.Authorize(header, env, nowMs);
      if gate.Fail? then r == Fail(gate.status, gate.message) && db.users == old(db.users)
      else
        var reply := Users.UpdateProfileReply(old(db.users), env, gate.value, body);
        if reply.Fail? then r == Fail(reply.status, reply.message) && db.users == old(db.users)
        else r == Ok(UserToJson(reply.value)) && db.users == Users.Replaced(old(db.users), reply.value)
  {
    r := Users.UpdateProfile(db, header, env, nowMs, body);
  }

  /** `DELETE /api/users/profile` in server.js: behind the gate, remove the caller's
      user record; favorites (and everything else) stay as they are. */
  method DeleteProfile(db: Db, header: Option<string>, env: Env, nowMs: nat) returns (r: Reply<()>)
    requires db.Valid()
    modifies db`users
    ensures db.Valid()
    ensures db.favorites == old(db.favorites) && db.reviews == old(db.reviews) && db.books == old(db.books)
    ensures var gate := Gate.Authorize(header, env, nowMs);
      if gate.Fail? then r == Fail(gate.status, gate.message) && db.users == old(db.users)
      else r == Ok(()) && db.users == Users.WithoutUser(old(db.users), gate.value)
  {
    var gate := Gate.Authorize(header, env, nowMs);
    if gate.Fail? {
      return Fail(gate.status, gate.message);
    }
    Users.DeleteRemovesOnlyThatUser(db.users, gate.value);
    db.users := Users.WithoutUser(db.users, gate.value);
    r := Ok(());
  }
}
