/** routes/users.js: the profile routes behind the gate. Reading the caller's profile,
    updating it through an allow-list with uniqueness checks and an optional password
    change, and deleting the account together with the caller's favorites. */
module Users {
  import opened Wrappers
  import opened Collections
  import opened Tokens
  import opened Store
  import Gate
  import Text

  const UserNotFoundMessage := "User not found"
  const UsernameInUseMessage := "Username already in use"
  const EmailInUseMessage := "Email already in use"
  const PasswordPairMessage := "oldPassword and newPassword are required to change password"
  const OldPasswordMessage := "Old password is incorrect"
  const ServerErrorMessage := "Server error"

  // ---------------------------------------------------------------------------
  // Profile

  /** `GET /api/users/profile` for the caller `userId`. */
  function ProfileReply(users: seq<User>, userId: Id): (r: Reply<map<string, Json>>)
    ensures r.Fail? <==> forall i :: 0 <= i < |users| ==> users[i].id != userId
    ensures r.Fail? ==> r == Fail(404, UserNotFoundMessage)
    ensures r.Ok? ==> ("password" !in r.value && "__v" !in r.value
      && exists i :: 0 <= i < |users| && users[i].id == userId && r.value == UserToJson(users[i]))
  {
    match UserIndex(users, userId)
    case None => Fail(404, UserNotFoundMessage)
    case Some(i) => Ok(UserToJson(users[i]))
  }

  /** `GET /api/users/profile`, behind the gate. */
  function GetProfile(header: Option<string>, env: Env, nowMs: nat, users: seq<User>): (r: Reply<map<string, Json>>)
    ensures Gate.Authorize(header, env, nowMs).Fail? ==> r.Fail? && r.status == 401
    ensures Gate.Authorize(header, env, nowMs).Ok? ==> r == ProfileReply(users, Gate.Authorize(header, env, nowMs).value)
  {
    match Gate.Authorize(header, env, nowMs)
    case Fail(status, message) => Fail(status, message)
    case Ok(user) => ProfileReply(users, user)
  }

  /** The body keys `PUT /api/users/profile` copies into `updates`. */
  const AllowedKeys: seq<string> := ["username", "email", "firstName", "lastName", "phone", "address"]

  /** `updates`: exactly the allowed keys the body defines, with the body's values. */
  function AllowedUpdates(body: map<string, Json>): (updates: map<string, Json>)
    ensures forall k :: k in updates <==> k in body && k in AllowedKeys
    ensures forall k :: k in updates ==> updates[k] == body[k]
  {
    map k | k in body && k in AllowedKeys :: body[k]
  }

  /** The loop that fills `updates`, one allowed key at a time. */
  method CollectUpdates(body: map<string, Json>) returns (updates: map<string, Json>)
    ensures updates == AllowedUpdates(body)
  {
    updates := map[];
    for n := 0 to |AllowedKeys|
      invariant updates == map k | k in body && k in AllowedKeys[..n] :: body[k]
    {
      var key := AllowedKeys[n];
      assert AllowedKeys[..n + 1] == AllowedKeys[..n] + [key];
      if key in body {
        updates := updates[key := body[key]];
      }
    }
    assert AllowedKeys[..|AllowedKeys|] == AllowedKeys;
  }

  /** JavaScript truthiness of a body value. */
  predicate Truthy(v: Json)
  {
    match v
    case Null => false
    case Str(s) => s != ""
    case Num(n) => n != 0
  }

  /** The string Mongoose stores for a value assigned to a String path; `None` for
      `null`. */
  function AsText(v: Json): Option<string>
  {
    match v
    case Null => None
    case Str(s) => Some(s)
    case Num(n) => Some(Text.IntToString(n))
  }

  function UsernameOf(u: User): string
  {
    u.username
  }

  function EmailOf(u: User): string
  {
    u.email
  }

  /** `if (updates[key])` and then `User.findOne({ [key]: value, _id: { $ne: userId } })`
      finds someone. */
  predicate ClaimedByOther(users: seq<User>, userId: Id, updates: map<string, Json>, key: string, field: User -> string)
  {
    && key in updates && Truthy(updates[key])
    && exists j :: 0 <= j < |users| && users[j].id != userId && field(users[j]) == AsText(updates[key]).value
  }

  /** The password step: the stored hash to keep, the hash of the new password, or the
      refusal. bcrypt throws on a non-string argument, which the handler answers with
      500. */
  function NewPassword(env: Env, stored: string, body: map<string, Json>): (r: Reply<string>)
    ensures var oldGiven := "oldPassword" in body && Truthy(body["oldPassword"]);
      var newGiven := "newPassword" in body && Truthy(body["newPassword"]);
      && (!oldGiven && !newGiven ==> r == Ok(stored))
      && (oldGiven != newGiven ==> r == Fail(400, PasswordPairMessage))
      && ((oldGiven && newGiven && body["oldPassword"].Str? && !PasswordMatches(env, body["oldPassword"].s, stored))
            ==> r == Fail(400, OldPasswordMessage))
      && ((oldGiven && newGiven && body["oldPassword"].Str? && PasswordMatches(env, body["oldPassword"].s, stored)
            && body["newPassword"].Str?) ==> r == Ok(env.hash(body["newPassword"].s)))
      && ((oldGiven && newGiven && (!body["oldPassword"].Str? ||
            (PasswordMatches(env, body["oldPassword"].s, stored) && !body["newPassword"].Str?))) ==> r == Fail(500, ServerErrorMessage))
      && ((r.Ok? && (oldGiven || newGiven)) ==> (body["oldPassword"].Str? && PasswordMatches(env, body["oldPassword"].s, stored)
            && body["newPassword"].Str? && r.value == env.hash(body["newPassword"].s)))
  {
    var oldGiven := "oldPassword" in body && Truthy(body["oldPassword"]);
    var newGiven := "newPassword" in body && Truthy(body["newPassword"]);
    if !oldGiven && !newGiven then Ok(stored)
    else if !oldGiven || !newGiven then Fail(400, PasswordPairMessage)
    else
      match body["oldPassword"]
      case Str(oldPlain) =>
        if !PasswordMatches(env, oldPlain, stored) then Fail(400, OldPasswordMessage)
        else (
          match body["newPassword"]
          case Str(newPlain) => Ok(env.hash(newPlain))
          case _ => Fail(500, ServerErrorMessage))
      case _ => Fail(500, ServerErrorMessage)
  }

  /** The value a required String path takes: `null` leaves it empty. */
  function Required(v: Json): string
  {
    match AsText(v)
    case None => ""
    case Some(s) => s
  }

  /** `Object.assign(user, updates)`. */
  function ApplyUpdates(u: User, updates: map<string, Json>): (w: User)
    ensures w.id == u.id && w.password == u.password && w.createdAt == u.createdAt
  {
    u.(username := if "username" in updates then Required(updates["username"]) else u.username,
       email := if "email" in updates then Required(updates["email"]) else u.email,
       firstName := if "firstName" in updates then AsText(updates["firstName"]) else u.firstName,
       lastName := if "lastName" in updates then AsText(updates["lastName"]) else u.lastName,
       phone := if "phone" in updates then AsText(updates["phone"]) else u.phone,
       address := if "address" in updates then AsText(updates["address"]) else u.address)
  }

  /** `user.save()` succeeds: the required validators pass and the unique indexes on
      username and email accept the record among the other users. */
  predicate Savable(users: seq<User>, i: nat, u: User)
  {
    && u.username != "" && u.email != ""
    && forall j :: 0 <= j < |users| && j != i ==> users[j].username != u.username && users[j].email != u.email
  }

  /** `PUT /api/users/profile` for the caller `userId`: the saved record, or the refusal. */
  function UpdateProfileReply(users: seq<User>, env: Env, userId: Id, body: map<string, Json>): (r: Reply<User>)
    ensures ClaimedByOther(users, userId, AllowedUpdates(body), "username", UsernameOf) ==> r == Fail(400, UsernameInUseMessage)
    ensures (!ClaimedByOther(users, userId, AllowedUpdates(body), "username", UsernameOf)
      && ClaimedByOther(users, userId, AllowedUpdates(body), "email", EmailOf)) ==> r == Fail(400, EmailInUseMessage)
    ensures (!ClaimedByOther(users, userId, AllowedUpdates(body), "username", UsernameOf)
      && !ClaimedByOther(users, userId, AllowedUpdates(body), "email", EmailOf)
      && UserIndex(users, userId).None?) ==> r == Fail(404, UserNotFoundMessage)
    ensures (!ClaimedByOther(users, userId, AllowedUpdates(body), "username", UsernameOf)
      && !ClaimedByOther(users, userId, AllowedUpdates(body), "email", EmailOf)
      && UserIndex(users, userId).Some?) ==>
      var i := UserIndex(users, userId).value;
      var password := NewPassword(env, users[i].password, body);
      if password.Fail? then r == Fail(password.status, password.message)
      else
        var u := ApplyUpdates(users[i].(password := password.value), AllowedUpdates(body));
        r == if Savable(users, i, u) then Ok(u) else Fail(500, ServerErrorMessage)
    ensures r.Ok? ==> (UserIndex(users, userId).Some? && r.value.id == userId
      && Savable(users, UserIndex(users, userId).value, r.value))
  {
    var updates := AllowedUpdates(body);
    if ClaimedByOther(users, userId, updates, "username", UsernameOf) then Fail(400, UsernameInUseMessage)
    else if ClaimedByOther(users, userId, updates, "email", EmailOf) then Fail(400, EmailInUseMessage)
    else
      match UserIndex(users, userId)
      case None => Fail(404, UserNotFoundMessage)
      case Some(i) =>
        match NewPassword(env, users[i].password, body)
        case Fail(status, message) => Fail(status, message)
        case Ok(password) =>
          var u := ApplyUpdates(users[i].(password := password), updates);
          if Savable(users, i, u) then Ok(u) else Fail(500, ServerErrorMessage)
  }

  /** The table after a successful update: the caller's record replaced in place. */
  function Replaced(users: seq<User>, u: User): (s: seq<User>)
    ensures |s| == |users|
  {
    match UserIndex(users, u.id)
    case None => users
    case Some(i) => users[i := u]
  }

  /** A successful update writes exactly what the allow-list lets through: every allowed
      field the body defines takes the body's value, every other field keeps its stored
      value, and the password changes only through the old/new password pair. */
  lemma UpdateAppliesAllowList(users: seq<User>, env: Env, userId: Id, body: map<string, Json>)
    requires UpdateProfileReply(users, env, userId, body).Ok?
    ensures var i := UserIndex(users, userId).value;
      var before := users[i];
      var u := UpdateProfileReply(users, env, userId, body).value;
      && u.id == before.id && u.createdAt == before.createdAt
      && u.username == (if "username" in body then Required(body["username"]) else before.username)
      && u.email == (if "email" in body then Required(body["email"]) else before.email)
      && u.firstName == (if "firstName" in body then AsText(body["firstName"]) else before.firstName)
      && u.lastName == (if "lastName" in body then AsText(body["lastName"]) else before.lastName)
      && u.phone == (if "phone" in body then AsText(body["phone"]) else before.phone)
      && u.address == (if "address" in body then AsText(body["address"]) else before.address)
      && u.password == NewPassword(env, before.password, body).value
  {
  }

  /** The body's other keys (`password`, `_id`, `createdAt`, ...) are ignored: changing
      or adding one changes nothing in the outcome. */
  lemma UpdateIgnoresOtherKeys(users: seq<User>, env: Env, userId: Id, body: map<string, Json>, key: string, value: Json)
    requires key !in AllowedKeys && key != "oldPassword" && key != "newPassword"
    ensures UpdateProfileReply(users, env, userId, body[key := value]) == UpdateProfileReply(users, env, userId, body)
  {
    assert AllowedUpdates(body[key := value]) == AllowedUpdates(body);
  }

  /** Sending back one's own username and email is not a conflict. */
  lemma OwnNameIsNoConflict(users: seq<User>, env: Env, userId: Id, body: map<string, Json>)
    requires UsersUnique(users)
    requires UserIndex(users, userId).Some?
    requires "username" in body ==> body["username"] == Str(users[UserIndex(users, userId).value].username)
    requires "email" in body ==> body["email"] == Str(users[UserIndex(users, userId).value].email)
    ensures UpdateProfileReply(users, env, userId, body) != Fail(400, UsernameInUseMessage)
    ensures UpdateProfileReply(users, env, userId, body) != Fail(400, EmailInUseMessage)
  {
    var i := UserIndex(users, userId).value;
    var updates := AllowedUpdates(body);
    forall j | 0 <= j < |users| && users[j].id != userId
      ensures users[j].username != users[i].username && users[j].email != users[i].email
    {
      if j < i {
        assert users[j].username != users[i].username;
      } else {
        assert j != i;
        assert users[i].username != users[j].username;
      }
    }
    assert !ClaimedByOther(users, userId, updates, "username", UsernameOf);
    assert !ClaimedByOther(users, userId, updates, "email", EmailOf);
  }

  /** A successful update keeps ids, usernames and emails distinct and non-empty. */
  lemma UpdateKeepsUsersValid(users: seq<User>, env: Env, userId: Id, body: map<string, Json>)
    requires UsersUnique(users) && UsersComplete(users)
    requires UpdateProfileReply(users, env, userId, body).Ok?
    ensures var u := UpdateProfileReply(users, env, userId, body).value;
      var s := Replaced(users, u);
      && UsersUnique(s) && UsersComplete(s)
      && s[UserIndex(users, userId).value] == u
      && forall j :: 0 <= j < |users| && j != UserIndex(users, userId).value ==> s[j] == users[j]
  {
    var i := UserIndex(users, userId).value;
    var u := UpdateProfileReply(users, env, userId, body).value;
    assert Savable(users, i, u);
    var s := users[i := u];
    assert Replaced(users, u) == s;
    forall a, b | 0 <= a < b < |s|
      ensures s[a].id != s[b].id && s[a].username != s[b].username && s[a].email != s[b].email
    {
      if a != i && b != i {
        assert s[a] == users[a] && s[b] == users[b];
      }
    }
  }

  /** A password change with both fields given succeeds only with the right old
      password, and then stores the hash of the new one; a wrong old password is refused
      once the uniqueness checks and the lookup have passed. */
  lemma PasswordRotation(users: seq<User>, env: Env, userId: Id, body: map<string, Json>, oldPlain: string, newPlain: string)
    requires "oldPassword" in body && body["oldPassword"] == Str(oldPlain) && oldPlain != ""
    requires "newPassword" in body && body["newPassword"] == Str(newPlain) && newPlain != ""
    ensures var r := UpdateProfileReply(users, env, userId, body);
      r.Ok? ==> (PasswordMatches(env, oldPlain, users[UserIndex(users, userId).value].password)
        && r.value.password == env.hash(newPlain))
    ensures (!ClaimedByOther(users, userId, AllowedUpdates(body), "username", UsernameOf)
      && !ClaimedByOther(users, userId, AllowedUpdates(body), "email", EmailOf)
      && UserIndex(users, userId).Some?
      && !PasswordMatches(env, oldPlain, users[UserIndex(users, userId).value].password))
      ==> UpdateProfileReply(users, env, userId, body) == Fail(400, OldPasswordMessage)
  {
  }

  /** `PUT /api/users/profile`: the gate, the allow-list loop, the uniqueness checks, the
      lookup, the password step, then `Object.assign` and `save`. No error path writes. */
  method UpdateProfile(db: Db, header: Option<string>, env: Env, nowMs: nat, body: map<string, Json>) returns (r: Reply<map<string, Json>>)
    requires db.Valid()
    modifies db`users
    ensures db.Valid()
    ensures var gate := Gate.Authorize(header, env, nowMs);
      if gate.Fail? then r == Fail(gate.status, gate.message) && db.users == old(db.users)
      else
        var reply := UpdateProfileReply(old(db.users), env, gate.value, body);
        if reply.Fail? then r == Fail(reply.status, reply.message) && db.users == old(db.users)
        else r == Ok(UserToJson(reply.value)) && db.users == Replaced(old(db.users), reply.value)
  {
    var gate := Gate.Authorize(header, env, nowMs);
    if gate.Fail? {
      return Fail(gate.status, gate.message);
    }
    var userId := gate.value;
    var updates := CollectUpdates(body);
    if ClaimedByOther(db.users, userId, updates, "username", UsernameOf) {
      return Fail(400, UsernameInUseMessage);
    }
    if ClaimedByOther(db.users, userId, updates, "email", EmailOf) {
      return Fail(400, EmailInUseMessage);
    }
    var found := UserIndex(db.users, userId);
    if found.None? {
      return Fail(404, UserNotFoundMessage);
    }
    var i := found.value;
    var user := db.users[i];
    var password := NewPassword(env, user.password, body);
    if password.Fail? {
      return Fail(password.status, password.message);
    }
    user := ApplyUpdates(user.(password := password.value), updates);
    if !Savable(db.users, i, user) {
      return Fail(500, ServerErrorMessage);
    }
    UpdateKeepsUsersValid(db.users, env, userId, body);
    db.users := db.users[i := user];
    r := Ok(UserToJson(user));
  }

  // ---------------------------------------------------------------------------
  // Delete

  /** A deleted account: every user record with that id removed. */
  function WithoutUser(users: seq<User>, userId: Id): (s: seq<User>)
    ensures forall i :: 0 <= i < |s| ==> s[i].id != userId
  {
    Filter(users, (u: User) => u.id != userId)
  }

  /** Deleting one record keeps the users distinct and complete. */
  lemma DeleteAtKeepsUsersValid(users: seq<User>, i: nat)
    requires UsersUnique(users) && UsersComplete(users) && i < |users|
    ensures UsersUnique(users[..i] + users[i + 1..]) && UsersComplete(users[..i] + users[i + 1..])
  {
    var s := users[..i] + users[i + 1..];
    assert forall k :: 0 <= k < |s| ==> s[k] == users[if k < i then k else k + 1];
    forall a, b | 0 <= a < b < |s|
      ensures s[a].id != s[b].id && s[a].username != s[b].username && s[a].email != s[b].email
    {
      var a', b' := if a < i then a else a + 1, if b < i then b else b + 1;
      assert s[a] == users[a'] && s[b] == users[b'];
    }
  }

  /** Deleting an account removes that user and no other, and keeps the remaining
      users' order and uniqueness. */
  lemma DeleteRemovesOnlyThatUser(users: seq<User>, userId: Id)
    requires UsersUnique(users) && UsersComplete(users)
    ensures var s := WithoutUser(users, userId);
      && UsersUnique(s) && UsersComplete(s)
      && (forall u :: u in s <==> u in users && u.id != userId)
      && |s| == if UserIndex(users, userId).Some? then |users| - 1 else |users|
  {
    var p := (u: User) => u.id != userId;
    FilterMembers(users, p);
    match UserIndex(users, userId)
    case None =>
      FilterAll(users, p);
    case Some(i) =>
      forall k | 0 <= k < |users| && k != i
        ensures p(users[k])
      {
        if k < i {
          assert users[k].id != users[i].id;
        } else {
          assert users[i].id != users[k].id;
        }
      }
      FilterDropsOne(users, p, i);
      DeleteAtKeepsUsersValid(users, i);
  }


  /** `Favorite.deleteMany({ userId })`: the favorites of everyone else, in order. */
  function WithoutFavoritesOf(favorites: seq<Favorite>, userId: Id): (s: seq<Favorite>)
    ensures forall i :: 0 <= i < |s| ==> s[i].userId != userId
    ensures forall f :: multiset(s)[f] == if f.userId != userId then multiset(favorites)[f] else 0
  {
    FilterCounts(favorites, (f: Favorite) => f.userId != userId);
    Filter(favorites, (f: Favorite) => f.userId != userId)
  }

  /** The cascade removes every favorite of the deleted user and no other, and the
      remaining (user, book) pairs stay unique. */
  lemma CascadeRemovesOnlyTheirFavorites(favorites: seq<Favorite>, userId: Id)
    requires FavoritePairsUnique(favorites)
    ensures var s := WithoutFavoritesOf(favorites, userId);
      && FavoritePairsUnique(s)
      && (forall f :: f in s <==> f in favorites && f.userId != userId)
  {
    var p := (f: Favorite) => f.userId != userId;
    var distinct := (a: Favorite, b: Favorite) => !SamePair(a, b);
    assert Pairwise(favorites, distinct);
    FilterKeepsPairwise(favorites, p, distinct);
    var s := Filter(favorites, p);
    assert Pairwise(s, distinct);
    forall i, j | 0 <= i < j < |s|
      ensures !SamePair(s[i], s[j])
    {
      assert distinct(s[i], s[j]);
    }
    FilterMembers(favorites, p);
  }

  /** `DELETE /api/users/profile`: behind the gate, remove the caller's user record and
      then all of their favorites; reviews are left as they are. Deleting an account
      that no longer exists still answers `{ ok: true }`. */
  method DeleteProfile(db: Db, header: Option<string>, env: Env, nowMs: nat) returns (r: Reply<()>)
    requires db.Valid()
    modifies db`users, db`favorites
    ensures db.Valid()
    ensures var gate := Gate.Authorize(header, env, nowMs);
      if gate.Fail? then r == Fail(gate.status, gate.message) && db.users == old(db.users) && db.favorites == old(db.favorites)
      else
        && r == Ok(())
        && db.users == WithoutUser(old(db.users), gate.value)
        && db.favorites == WithoutFavoritesOf(old(db.favorites), gate.value)
  {
    var gate := Gate.Authorize(header, env, nowMs);
    if gate.Fail? {
      return Fail(gate.status, gate.message);
    }
    var userId := gate.value;
    DeleteRemovesOnlyThatUser(db.users, userId);
    db.users := WithoutUser(db.users, userId);
    CascadeRemovesOnlyTheirFavorites(db.favorites, userId);
    db.favorites := WithoutFavoritesOf(db.favorites, userId);
    r := Ok(());
  }
}
