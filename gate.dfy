/** `authMiddleware`, the bearer-token gate in front of every private route. The same
    function is written out in routes/books.js, routes/review.js, routes/users.js and
    server.js; all four copies have the same checks, messages and statuses. */
module Gate {
  import opened Wrappers
  import opened Tokens
  import Text

  const NoHeaderMessage := "No authorization header"
  const BadFormatMessage := "Invalid authorization format"
  const BadTokenMessage := "Invalid or expired token"

  /** The `Authorization` header (`None` when the request has none) checked at time
      `nowMs`: `Ok(id)` is `req.userId` for the guarded handler, `Fail` is the 401. */
  function Authorize(header: Option<string>, env: Env, nowMs: nat): (r: Reply<Id>)
    ensures r.Fail? ==> r.status == 401
    ensures (header.None? || header.value == "") <==> r == Fail(401, NoHeaderMessage)
  {
    if header.None? || header.value == "" then Fail(401, NoHeaderMessage)
    else
      var parts := Text.Split(header.value, ' ');
      if |parts| != 2 || parts[0] != "Bearer" then Fail(401, BadFormatMessage)
      else
        match Verify(env, parts[1], nowMs)
        case None => Fail(401, BadTokenMessage)
        case Some(id) => Ok(id)
  }

  /** A header of the form `Bearer <t>` with no further space reaches token verification,
      and the gate's answer is exactly what verification says. */
  lemma {:induction false} BearerHeaderReachesVerify(t: string, env: Env, nowMs: nat)
    requires ' ' !in t
    ensures Authorize(Some("Bearer " + t), env, nowMs)
      == match Verify(env, t, nowMs)
         case None => Fail(401, BadTokenMessage)
         case Some(id) => Ok(id)
  {
    var parts := ["Bearer", t];
    assert Text.Join(parts, ' ') == "Bearer " + t by {
      assert Text.Join(parts[1..], ' ') == t;
    }
    Text.SplitJoin(parts, ' ');
  }

  /** Conversely, the gate only lets through headers of the form `Bearer <t>` whose `t`
      has no space and verifies to the id it hands on; every other header is refused
      with 401 as an invalid format. */
  lemma {:induction false} AcceptedHeaderIsBearer(header: Option<string>, env: Env, nowMs: nat)
    requires header.Some? && header.value != ""
    ensures var parts := Text.Split(header.value, ' ');
      if |parts| == 2 && parts[0] == "Bearer" then
        && header.value == "Bearer " + parts[1]
        && ' ' !in parts[1]
        && (Authorize(header, env, nowMs).Ok? <==> Verify(env, parts[1], nowMs).Some?)
      else Authorize(header, env, nowMs) == Fail(401, BadFormatMessage)
  {
    var parts := Text.Split(header.value, ' ');
    if |parts| == 2 {
      assert Text.Join(parts, ' ') == parts[0] + " " + Text.Join(parts[1..], ' ');
      assert Text.Join(parts[1..], ' ') == parts[1];
    }
  }

  /** A token issued by register or login opens the gate for its user for seven days
      and is refused with 401 afterwards. */
  lemma IssuedTokenOpensGate(env: Env, id: Id, issuedMs: nat, nowMs: nat)
    requires SoundSigner(env)
    ensures Seconds(nowMs) < Seconds(issuedMs) + TokenLifetime ==>
      Authorize(Some("Bearer " + Issue(env, id, issuedMs)), env, nowMs) == Ok(id)
    ensures nowMs >= issuedMs + TokenLifetime * 1000 ==>
      Authorize(Some("Bearer " + Issue(env, id, issuedMs)), env, nowMs) == Fail(401, BadTokenMessage)
  {
    var t := Issue(env, id, issuedMs);
    var c := Claims(id, Seconds(issuedMs), Seconds(issuedMs) + TokenLifetime);
    assert ' ' !in env.encode(c);
    BearerHeaderReachesVerify(t, env, nowMs);
    IssuedTokenLifetime(env, id, issuedMs, nowMs);
  }
}
