/** The collaborators the server calls but whose code is not part of this model, passed in
    as uninterpreted functions: bcrypt (`hash`), jsonwebtoken signing and signature
    checking under the process secret (`encode`/`decode`), and `ObjectId.isValid`
    (`isValidId`). On top of them, the token service: `jwt.sign({ id }, secret,
    { expiresIn: '7d' })` and `jwt.verify(token, secret)` at a given time. */
module Tokens {
  import opened Wrappers

  /** A record identifier (an ObjectId in its string form). */
  type Id = string

  /** The JWT payload: the user id plus `iat` and `exp` in whole seconds. */
  datatype Claims = Claims(id: Id, iat: int, exp: int)

  datatype Env = Env(
    hash: string -> string,
    encode: Claims -> string,
    decode: string -> Option<Claims>,
    isValidId: string -> bool)

  /** `expiresIn: '7d'`, in seconds. */
  const TokenLifetime: nat := 7 * 24 * 60 * 60

  /** jsonwebtoken's clock: whole seconds of `Date.now()`. */
  function Seconds(nowMs: nat): nat
  {
    nowMs / 1000
  }

  /** bcrypt.compare(plain, stored), modelled as "the stored hash is the hash of plain". */
  predicate PasswordMatches(env: Env, plain: string, stored: string)
  {
    env.hash(plain) == stored
  }

  /** `jwt.sign({ id }, secret, { expiresIn: '7d' })` at time `nowMs`. */
  function Issue(env: Env, id: Id, nowMs: nat): string
  {
    var iat := Seconds(nowMs);
    env.encode(Claims(id, iat, iat + TokenLifetime))
  }

  /** `jwt.verify(token, secret).id` at time `nowMs`; `None` when verification throws:
      a bad signature or malformed token, or a clock at or past `exp`. */
  function Verify(env: Env, token: string, nowMs: nat): Option<Id>
  {
    match env.decode(token)
    case None => None
    case Some(claims) => if Seconds(nowMs) >= claims.exp then None else Some(claims.id)
  }

  /** What a correct signer promises: a token it issued checks out to the same payload,
      and it is a single header segment (base64url text holds no space). */
  ghost predicate SoundSigner(env: Env)
  {
    forall c: Claims {:trigger env.encode(c)} ::
      env.decode(env.encode(c)) == Some(c) && ' ' !in env.encode(c)
  }

  /** A token issued at `issuedMs` names its user for seven days (counted in the whole
      seconds jsonwebtoken uses) and is refused from then on. */
  lemma IssuedTokenLifetime(env: Env, id: Id, issuedMs: nat, nowMs: nat)
    requires SoundSigner(env)
    ensures Verify(env, Issue(env, id, issuedMs), nowMs)
      == if Seconds(nowMs) < Seconds(issuedMs) + TokenLifetime then Some(id) else None
    ensures nowMs >= issuedMs + TokenLifetime * 1000 ==> Verify(env, Issue(env, id, issuedMs), nowMs) == None
  {
    var c := Claims(id, Seconds(issuedMs), Seconds(issuedMs) + TokenLifetime);
    assert env.decode(env.encode(c)) == Some(c);
    if nowMs >= issuedMs + TokenLifetime * 1000 {
      assert (issuedMs + TokenLifetime * 1000) / 1000 == Seconds(issuedMs) + TokenLifetime;
      DivMonotone(issuedMs + TokenLifetime * 1000, nowMs);
    }
  }

  lemma DivMonotone(a: nat, b: nat)
    requires a <= b
    ensures a / 1000 <= b / 1000
  {
  }
}
