/**
 * The `auth` middleware that `index.js` mounts on every path under "/customer/auth/": it
 * requires a session holding an access token, verifies that token as a JSON
 * Web Token (RFC 7519) under a fixed secret, and either answers the request
 * itself or passes it on with the token's username attached as `req.user`.
 */
module AuthGate {
  import opened Wrappers

  /** `req.session.authorization`, as the login route stores it. */
  datatype Authorization = Authorization(accessToken: Option<string>, username: Option<string>)

  /** The server-side session; `req.session` itself may be missing. */
  datatype Session = Session(authorization: Option<Authorization>)

  /** The claims of a verified token that the model keeps. */
  datatype Payload = Payload(username: Option<string>, exp: Option<int>)

  /** Why the token library refused a token (each is a thrown error). */
  datatype RejectReason = InvalidSignature | Malformed | Expired | NotYetValid

  datatype Verdict = Verified(payload: Payload) | Rejected(reason: RejectReason)

  /** `jwt.verify(token, secret)`: the token library, left abstract. */
  type Verifier = (string, string) -> Verdict

  /** The secret every token is verified with. */
  const JwtSecret: string := "access"

  /** What the middleware does with a request. */
  datatype Outcome = NotLoggedIn401 | InvalidToken401 | Error500 | Pass(username: Option<string>) {

    /** The status code the middleware answers with; none when it calls `next()`. */
    function Status(): Option<int> {
      match this
      case NotLoggedIn401 => Some(401)
      case InvalidToken401 => Some(401)
      case Error500 => Some(500)
      case Pass(_) => None
    }
  }

  /** The session holds an authorization object with a truthy access token. */
  predicate HasToken(session: Option<Session>) {
    && session.Some?
    && session.value.authorization.Some?
    && session.value.authorization.value.accessToken.Some?
    && session.value.authorization.value.accessToken.value != ""
  }

  function TokenOf(session: Option<Session>): string
    requires HasToken(session)
  {
    session.value.authorization.value.accessToken.value
  }

  /**
   * The middleware. Without a token it answers 401 "not logged in"; a token
   * the library refuses gets 401 "invalid or expired"; a verified token
   * passes with the payload's username, whatever the session records.
   * The outer 500 handler is never reached: every check before the
   * verification is a plain read, and the library's errors are caught by the
   * inner handler.
   */
  function Auth(session: Option<Session>, verify: Verifier): (o: Outcome)
    ensures o.NotLoggedIn401? <==> !HasToken(session)
    ensures o.InvalidToken401? <==> HasToken(session) && verify(TokenOf(session), JwtSecret).Rejected?
    ensures o.Pass? <==> HasToken(session) && verify(TokenOf(session), JwtSecret).Verified?
    ensures o.Pass? ==> o.username == verify(TokenOf(session), JwtSecret).payload.username
    ensures !o.Error500?
    ensures o.Status().Some? ==> o.Status() == Some(401)
  {
    if session.None? || session.value.authorization.None? then NotLoggedIn401
    else
      var authorization := session.value.authorization.value;
      match authorization.accessToken
      case None => NotLoggedIn401
      case Some(token) =>
        if token == "" then NotLoggedIn401
        else
          match verify(token, JwtSecret)
          case Verified(payload) => Pass(payload.username)
          case Rejected(_) => InvalidToken401
  }

  /**
   * The username stored beside the token is never read: two sessions that
   * differ only in it are treated alike, and a verified token passes with
   * the token's username even when the session records another.
   */
  lemma {:induction false} SessionUsernameIgnored(token: Option<string>, u1: Option<string>, u2: Option<string>, verify: Verifier)
    ensures Auth(Some(Session(Some(Authorization(token, u1)))), verify)
         == Auth(Some(Session(Some(Authorization(token, u2)))), verify)
    ensures token.Some? && token.value != "" && verify(token.value, JwtSecret).Verified? ==>
      Auth(Some(Session(Some(Authorization(token, u1)))), verify)
        == Pass(verify(token.value, JwtSecret).payload.username)
  {
  }

  /**
   * Only the fixed secret is ever consulted: two verifiers that agree on
   * every token under "access" make the middleware decide alike, whatever
   * they do under any other secret.
   */
  lemma FixedSecretOnly(session: Option<Session>, v1: Verifier, v2: Verifier)
    requires forall t :: v1(t, JwtSecret) == v2(t, JwtSecret)
    ensures Auth(session, v1) == Auth(session, v2)
  {
  }

  /**
   * `jwt.verify` with the signature check left abstract and the expiry rule
   * of section 4.1.4 of RFC 7519 written out: a signed token whose `exp` is
   * at or before `now` (seconds since the epoch) is refused as expired.
   */
  function ExpiryChecked(checkSignature: (string, string) -> Option<Payload>, now: int): (v: Verifier)
    ensures forall t, s :: checkSignature(t, s).None? ==> v(t, s) == Rejected(InvalidSignature)
    ensures forall t, s ::
      (checkSignature(t, s).Some? && checkSignature(t, s).value.exp.Some?
       && now >= checkSignature(t, s).value.exp.value) ==> v(t, s) == Rejected(Expired)
    ensures forall t, s :: v(t, s).Verified? ==> Some(v(t, s).payload) == checkSignature(t, s)
    ensures forall t, s ::
      (checkSignature(t, s).Some? && (checkSignature(t, s).value.exp.None?
       || now < checkSignature(t, s).value.exp.value)) ==> v(t, s) == Verified(checkSignature(t, s).value)
  {
    (t: string, s: string) =>
      match checkSignature(t, s)
      case None => Rejected(InvalidSignature)
      case Some(p) =>
        if p.exp.Some? && now >= p.exp.value then Rejected(Expired) else Verified(p)
  }

  /** An expired token never gets through the gate. */
  lemma ExpiredTokenNeverPasses(session: Option<Session>, checkSignature: (string, string) -> Option<Payload>, now: int)
    requires HasToken(session)
    requires checkSignature(TokenOf(session), JwtSecret).Some?
    requires checkSignature(TokenOf(session), JwtSecret).value.exp.Some?
    requires now >= checkSignature(TokenOf(session), JwtSecret).value.exp.value
    ensures Auth(session, ExpiryChecked(checkSignature, now)) == InvalidToken401
  {
  }

  /**
   * A token with a good signature that has not expired gets through, carrying
   * the username of its own payload.
   */
  lemma ValidTokenPasses(session: Option<Session>, checkSignature: (string, string) -> Option<Payload>, now: int)
    requires HasToken(session)
    requires checkSignature(TokenOf(session), JwtSecret).Some?
    requires checkSignature(TokenOf(session), JwtSecret).value.exp.None?
      || now < checkSignature(TokenOf(session), JwtSecret).value.exp.value
    ensures Auth(session, ExpiryChecked(checkSignature, now))
      == Pass(checkSignature(TokenOf(session), JwtSecret).value.username)
  {
  }
}
