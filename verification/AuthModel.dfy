/**
 * The login service as a step function: login challenges, lockout, the second factor, passkeys, sessions and
 * their revocation. The clock and all generated ids are inputs; names stand for their lower-case form, since
 * every lookup ignores case.
 */
module AuthModel {
  import opened Wrappers
  import opened JavaScript
  import opened BigEndian
  import opened SrpSession

  type Id = string
  type Name = string

  const FIVE_MINUTES := 5 * 60 * 1000
  const LOCKOUT := 15 * 60 * 1000
  const MAX_FAILURES := 5
  const CHALLENGE_TTL := 300 * 1000
  const DENYLIST_TTL := 86400 * 1000
  const TOKEN_LIFETIME_SECONDS := 24 * 3600

  // ---------- Data ----------

  datatype Credential = Credential(id: Id, publicKey: string, counter: int)

  datatype User = User(
    id: Id, salt: Bytes, verifier: nat, failedAttempts: int, lockoutUntil: Option<int>,
    totpSecret: Option<string>, totpEnabled: bool, webauthnEnabled: bool, credentials: Option<seq<Credential>>)

  datatype LoginChallenge = LoginChallenge(
    username: Name, A: nat, b: nat, B: nat, salt: Bytes, verifier: nat, createdAt: int)

  // A value in the key-value store, visible until it expires.
  datatype Entry = Entry(challenge: LoginChallenge, expiresAt: int)

  datatype MfaSession = MfaSession(username: Name, createdAt: int)
  datatype WebAuthnChallenge = WebAuthnChallenge(challenge: string, createdAt: int)
  datatype PasskeyChallenge = PasskeyChallenge(username: Option<Name>, createdAt: int)

  datatype Method = Registration | Srp6a | MfaTotp | MfaWebAuthn | Passkey
  datatype Session = Session(userId: Id, username: Name, loginMethod: Method, isRevoked: bool)

  // A signed token; times are whole seconds.
  datatype Token = Token(sub: Id, username: Name, jti: Id, iat: int, exp: int)

  // Everything that pruning never touches: the database, the expiring key-value store and the WebAuthn challenges.
  datatype Store = Store(
    users: map<Name, User>,
    challenges: map<Id, Entry>,
    webauthnChallenges: map<Name, WebAuthnChallenge>,
    sessions: map<Id, Session>,
    denylist: map<Id, int>)

  datatype State = State(
    store: Store,
    mfaSessions: map<Id, MfaSession>,
    passkeyChallenges: map<string, PasskeyChallenge>)

  const EMPTY := State(Store(map[], map[], map[], map[], map[]), map[], map[])

  // What the browser sends back for a credential.
  datatype Assertion = Assertion(id: Id, data: string)

  /** The cryptography, as arbitrary functions. */
  datatype Env = Env(
    ephemeral: (nat, Bytes) -> (nat, nat),
    dummy: Name -> (Bytes, nat),
    srp: (LoginChallenge, Bytes) -> Verdict,
    totp: (string, string, int) -> Result<bool, string>,
    register: (string, Assertion) -> Option<Credential>,
    assertion: (Credential, string, Assertion) -> Option<int>)

  datatype Op =
    | Register(username: Name, salt: Bytes, verifier: Option<nat>, newUserId: Id, newSessionId: Id)
    | LoginStep1(username: Name, A: Option<nat>, random: Bytes, challengeId: Id)
    | LoginStep2(challengeId: Id, m1: Bytes, newMfaToken: Id, newSessionId: Id)
    | GenerateTotp(username: Name, newSecret: string)
    | EnableTotp(username: Name, code: string)
    | VerifyTotp(mfaToken: Id, code: string, newSessionId: Id)
    | WebAuthnRegisterOptions(username: Name, newChallenge: string)
    | VerifyWebAuthnRegister(username: Name, response: Assertion)
    | WebAuthnLoginOptions(mfaToken: Id, newChallenge: string)
    | VerifyWebAuthnLogin(mfaToken: Id, response: Assertion, newSessionId: Id)
    | PasskeyLoginOptions(account: Option<Name>, newChallenge: string)
    // `owner` is the row that the database returns for the credential when no account was named
    | VerifyPasskeyLogin(challenge: string, response: Assertion, owner: Option<Name>, newSessionId: Id)
    | RevokeSession(userId: Id, currentJti: Option<Id>, sessionId: Id)
    | PruneOldChallenges

  datatype Response =
    | Error(status: int, message: string)
    | Success
    | ChallengeIssued(salt: Bytes, B: nat, challengeId: Id)
    | LoggedIn(serverEvidence: Bytes, token: Token)
    | MfaRequired(serverEvidence: Bytes, mfaToken: Id, totp: bool, webauthn: bool)
    | Granted(token: Token)
    | Options(challenge: string)
    | Secret(secret: string)

  // ---------- Helpers ----------

  // Older than five minutes
  predicate Stale(createdAt: int, now: int) {
    createdAt < now - FIVE_MINUTES
  }

  predicate Locked(d: Store, username: Name, now: int) {
    username in d.users && d.users[username].lockoutUntil.Some? && d.users[username].lockoutUntil.value > now
  }

  predicate Live(d: Store, challengeId: Id, now: int) {
    challengeId in d.challenges && now < d.challenges[challengeId].expiresAt
  }

  predicate OpenMfa(s: State, mfaToken: Id, now: int) {
    mfaToken in s.mfaSessions && !Stale(s.mfaSessions[mfaToken].createdAt, now)
  }

  predicate OpenPasskey(s: State, challenge: string, now: int) {
    challenge in s.passkeyChallenges && !Stale(s.passkeyChallenges[challenge].createdAt, now)
  }

  function MakeToken(user: User, username: Name, jti: Id, now: int): Token {
    Token(user.id, username, jti, now / 1000, now / 1000 + TOKEN_LIFETIME_SECONDS)
  }

  function WithSession(d: Store, username: Name, how: Method, sid: Id): Store
    requires username in d.users
  {
    d.(sessions := d.sessions[sid := Session(d.users[username].id, username, how, false)])
  }

  function WithUser(d: Store, username: Name, user: User): Store {
    d.(users := d.users[username := user])
  }

  function FindCredential(creds: seq<Credential>, id: Id): (r: int)
    ensures -1 <= r < |creds|
    ensures r >= 0 ==> creds[r].id == id && forall k :: 0 <= k < r ==> creds[k].id != id
    ensures r == -1 ==> forall k :: 0 <= k < |creds| ==> creds[k].id != id
  {
    if creds == [] then -1
    else if creds[0].id == id then 0
    else
      var r := FindCredential(creds[1..], id);
      if r == -1 then -1 else r + 1
  }

  function Recount(user: User, k: nat, counter: int): User
    requires user.credentials.Some? && k < |user.credentials.value|
  {
    var creds := user.credentials.value;
    user.(credentials := Some(creds[k := creds[k].(counter := counter)]))
  }

  // ---------- Password login ----------

  function Registered(d: Store, now: int, username: Name, salt: Bytes, verifier: Option<nat>, userId: Id, sid: Id)
    : (Store, Response)
  {
    if username == "" || salt == [] || verifier.None? then (d, Error(400, "Missing registration parameters"))
    else if username in d.users then (d, Error(409, "Username already exists"))
    else
      var user := User(userId, salt, verifier.value, 0, None, None, false, false, None);
      (WithSession(WithUser(d, username, user), username, Registration, sid),
       Granted(MakeToken(user, username, sid, now)))
  }

  // For an unknown name the salt and verifier are dummies, so the answer does not show that it is unknown.
  function FirstStep(env: Env, d: Store, now: int, username: Name, A: Option<nat>, random: Bytes, cid: Id)
    : (Store, Response)
  {
    if username == "" || A.None? then (d, Error(400, "Missing login parameters"))
    else if Locked(d, username, now) then (d, Error(423, "Account is locked. Try again later."))
    else
      var (salt, v) := if username in d.users then (d.users[username].salt, d.users[username].verifier)
                       else env.dummy(username);
      var (b, B) := env.ephemeral(v, random);
      var c := LoginChallenge(username, A.value, b, B, salt, v, now);
      (d.(challenges := d.challenges[cid := Entry(c, now + CHALLENGE_TTL)]), ChallengeIssued(salt, B, cid))
  }

  function WithFailure(user: User, now: int): User {
    var n := user.failedAttempts + 1;
    user.(failedAttempts := n, lockoutUntil := if n >= MAX_FAILURES then Some(now + LOCKOUT) else user.lockoutUntil)
  }

  function PasswordRejected(d: Store, now: int, username: Name): (Store, Response) {
    (if username in d.users then WithUser(d, username, WithFailure(d.users[username], now)) else d,
     Error(401, "Incorrect username or password"))
  }

  // A right proof clears the failures; then the second factor, if the account has one, stands before the session.
  function PasswordAccepted(d: Store, now: int, username: Name, evidence: Bytes, mfaToken: Id, sid: Id)
    : (Store, Response)
    requires username in d.users
  {
    var user := d.users[username].(failedAttempts := 0, lockoutUntil := None);
    var d1 := WithUser(d, username, user);
    if user.totpEnabled || user.webauthnEnabled then
      (d1, MfaRequired(evidence, mfaToken, user.totpEnabled, user.webauthnEnabled))
    else
      (WithSession(d1, username, Srp6a, sid), LoggedIn(evidence, MakeToken(user, username, sid, now)))
  }

  function Checked(env: Env, d: Store, now: int, c: LoginChallenge, m1: Bytes, mfaToken: Id, sid: Id)
    : (Store, Response)
  {
    if Locked(d, c.username, now) then (d, Error(423, "Account is locked. Try again later."))
    else
      match env.srp(c, m1)
      case Mismatch => (d, Error(500, "Internal server error"))
      case Rejected => PasswordRejected(d, now, c.username)
      case Accepted(evidence, _) =>
        if c.username !in d.users then (d, Error(401, "Incorrect username or password"))
        else PasswordAccepted(d, now, c.username, evidence, mfaToken, sid)
  }

  // The challenge is taken out of the store before anything is checked.
  function SecondStep(env: Env, s: State, now: int, cid: Id, m1: Bytes, mfaToken: Id, sid: Id): (State, Response) {
    var d := s.store.(challenges := s.store.challenges - {cid});
    if !Live(s.store, cid, now) then (s.(store := d), Error(401, "Invalid or expired login session"))
    else
      var c := s.store.challenges[cid].challenge;
      var (d', response) := Checked(env, d, now, c, m1, mfaToken, sid);
      var mfa := if response.MfaRequired?
                 then s.mfaSessions[mfaToken := MfaSession(c.username, now)]
                 else s.mfaSessions;
      (s.(store := d', mfaSessions := mfa), response)
  }

  // ---------- Second factors ----------

  function TotpGenerated(d: Store, username: Name, secret: string): (Store, Response) {
    if username !in d.users then (d, Error(404, "User not found"))
    else (WithUser(d, username, d.users[username].(totpSecret := Some(secret))), Secret(secret))
  }

  function TotpEnabled(env: Env, d: Store, now: int, username: Name, code: string): (Store, Response) {
    if username !in d.users || !Truthy(d.users[username].totpSecret) then (d, Error(400, "TOTP not setup"))
    else
      match env.totp(d.users[username].totpSecret.value, code, now)
      case Err(_) => (d, Error(500, "Internal server error"))
      case Ok(valid) =>
        if !valid then (d, Error(401, "Invalid code"))
        else (WithUser(d, username, d.users[username].(totpEnabled := true)), Success)
  }

  function SessionFor(d: Store, now: int, username: Name, how: Method, sid: Id): (Store, Response)
    requires username in d.users
  {
    (WithSession(d, username, how, sid), Granted(MakeToken(d.users[username], username, sid, now)))
  }

  function TotpFactor(env: Env, d: Store, now: int, u: Name, code: string, sid: Id): (Store, Response) {
    if u !in d.users || !d.users[u].totpEnabled || !Truthy(d.users[u].totpSecret)
    then (d, Error(400, "TOTP is not enabled"))
    else
      match env.totp(d.users[u].totpSecret.value, code, now)
      case Err(_) => (d, Error(500, "Internal server error"))
      case Ok(valid) => if !valid then (d, Error(401, "Invalid code")) else SessionFor(d, now, u, MfaTotp, sid)
  }

  // A factor that passes uses up its token.
  function Used(s: State, mfaToken: Id, x: (Store, Response)): (State, Response) {
    (s.(store := x.0, mfaSessions := if x.1.Granted? then s.mfaSessions - {mfaToken} else s.mfaSessions), x.1)
  }

  function TotpVerified(env: Env, s: State, now: int, mfaToken: Id, code: string, sid: Id): (State, Response) {
    if !OpenMfa(s, mfaToken, now) then (s, Error(401, "Invalid or expired MFA session"))
    else Used(s, mfaToken, TotpFactor(env, s.store, now, s.mfaSessions[mfaToken].username, code, sid))
  }

  function RegisterOptions(d: Store, now: int, username: Name, challenge: string): (Store, Response) {
    if username !in d.users then (d, Error(404, "User not found"))
    else (d.(webauthnChallenges := d.webauthnChallenges[username := WebAuthnChallenge(challenge, now)]),
          Options(challenge))
  }

  function WithCredential(user: User, cred: Credential): User {
    var creds := if user.credentials.Some? then user.credentials.value else [];
    user.(credentials := Some(creds + [cred]), webauthnEnabled := true)
  }

  function CredentialRegistered(env: Env, d: Store, now: int, username: Name, response: Assertion): (Store, Response) {
    if username !in d.users then (d, Error(404, "User not found"))
    else if username !in d.webauthnChallenges || Stale(d.webauthnChallenges[username].createdAt, now)
    then (d, Error(400, "Invalid or expired registration challenge"))
    else
      var d1 := d.(webauthnChallenges := d.webauthnChallenges - {username});
      match env.register(d.webauthnChallenges[username].challenge, response)
      case None => (d1, Error(400, "WebAuthn registration verification failed"))
      case Some(cred) => (WithUser(d1, username, WithCredential(d.users[username], cred)), Success)
  }

  function FactorOptions(d: Store, now: int, u: Name, challenge: string): (Store, Response) {
    if u !in d.users || !d.users[u].webauthnEnabled || d.users[u].credentials.None?
    then (d, Error(400, "WebAuthn is not enabled for this account"))
    else (d.(webauthnChallenges := d.webauthnChallenges[u := WebAuthnChallenge(challenge, now)]), Options(challenge))
  }

  function LoginOptions(s: State, now: int, mfaToken: Id, challenge: string): (State, Response) {
    if !OpenMfa(s, mfaToken, now) then (s, Error(401, "Invalid or expired MFA session"))
    else OnStore(s, FactorOptions(s.store, now, s.mfaSessions[mfaToken].username, challenge))
  }

  // A known credential with a good assertion gets its counter set and opens a session.
  function Asserted(env: Env, d: Store, now: int, u: Name, challenge: string, response: Assertion, how: Method, sid: Id)
    : (Store, Response)
    requires u in d.users && d.users[u].credentials.Some?
  {
    var k := FindCredential(d.users[u].credentials.value, response.id);
    if k == -1 then (d, Error(401, "Credential not recognized for this user"))
    else
      match env.assertion(d.users[u].credentials.value[k], challenge, response)
      case None => (d, Error(401, "WebAuthn login verification failed"))
      case Some(counter) => SessionFor(WithUser(d, u, Recount(d.users[u], k, counter)), now, u, how, sid)
  }

  function WebAuthnFactor(env: Env, d: Store, now: int, u: Name, response: Assertion, sid: Id): (Store, Response) {
    if u !in d.users || !d.users[u].webauthnEnabled || d.users[u].credentials.None?
    then (d, Error(400, "WebAuthn not configured"))
    else if u !in d.webauthnChallenges || Stale(d.webauthnChallenges[u].createdAt, now)
    then (d, Error(400, "Invalid or expired authentication challenge"))
    else
      Asserted(env, d.(webauthnChallenges := d.webauthnChallenges - {u}), now, u,
               d.webauthnChallenges[u].challenge, response, MfaWebAuthn, sid)
  }

  function WebAuthnVerified(env: Env, s: State, now: int, mfaToken: Id, response: Assertion, sid: Id)
    : (State, Response)
  {
    if !OpenMfa(s, mfaToken, now) then (s, Error(401, "Invalid or expired MFA session"))
    else Used(s, mfaToken, WebAuthnFactor(env, s.store, now, s.mfaSessions[mfaToken].username, response, sid))
  }

  // ---------- Passkeys ----------

  predicate HasPasskeys(d: Store, u: Name) {
    u in d.users && d.users[u].credentials.Some? && d.users[u].credentials.value != []
  }

  function PasskeyOptions(s: State, now: int, account: Option<Name>, challenge: string): (State, Response) {
    if Truthy(account) && !HasPasskeys(s.store, account.value)
    then (s, Error(400, "Passkey login not set up for this user"))
    else
      var c := PasskeyChallenge(if Truthy(account) then account else None, now);
      (s.(passkeyChallenges := s.passkeyChallenges[challenge := c]), Options(challenge))
  }

  predicate OwnsCredential(d: Store, u: Name, id: Id) {
    u in d.users && d.users[u].credentials.Some? && FindCredential(d.users[u].credentials.value, id) >= 0
  }

  // The account that the challenge names, or else the owner of the credential.
  function PasskeyChecked(env: Env, d: Store, now: int, named: Option<Name>, challenge: string, response: Assertion,
                          owner: Option<Name>, sid: Id)
    : (Store, Response)
  {
    var u := if named.Some? then named
             else if owner.Some? && OwnsCredential(d, owner.value, response.id) then owner else None;
    if u.None? || u.value !in d.users || d.users[u.value].credentials.None?
    then (d, Error(401, "User or passkey credential not found"))
    else Asserted(env, d, now, u.value, challenge, response, Passkey, sid)
  }

  // The challenge is used up whatever the outcome.
  function PasskeyVerified(env: Env, s: State, now: int, challenge: string, response: Assertion, owner: Option<Name>,
                           sid: Id)
    : (State, Response)
  {
    if challenge == "" then (s, Error(400, "Missing challenge parameter"))
    else if !OpenPasskey(s, challenge, now) then (s, Error(400, "Invalid or expired login challenge"))
    else
      OnStore(s.(passkeyChallenges := s.passkeyChallenges - {challenge}),
              PasskeyChecked(env, s.store, now, s.passkeyChallenges[challenge].username, challenge, response, owner,
                             sid))
  }

  // ---------- Revocation and pruning ----------

  function SessionRevoked(d: Store, now: int, userId: Id, currentJti: Option<Id>, sid: Id): (Store, Response) {
    if Truthy(currentJti) && currentJti.value == sid
    then (d, Error(400, "Cannot revoke current session. Use standard logout flow."))
    else if sid !in d.sessions || d.sessions[sid].userId != userId then (d, Error(404, "Session not found"))
    else
      (d.(sessions := d.sessions[sid := d.sessions[sid].(isRevoked := true)],
          denylist := d.denylist[sid := now + DENYLIST_TTL]),
       Success)
  }

  function Pruned(s: State, now: int): State {
    s.(mfaSessions := map t | t in s.mfaSessions && !Stale(s.mfaSessions[t].createdAt, now) :: s.mfaSessions[t],
       passkeyChallenges := map c | c in s.passkeyChallenges && !Stale(s.passkeyChallenges[c].createdAt, now)
                                :: s.passkeyChallenges[c])
  }

  // ---------- One step ----------

  function OnStore(s: State, x: (Store, Response)): (State, Response) {
    (s.(store := x.0), x.1)
  }

  function Serve(env: Env, s: State, now: int, op: Op): (State, Response) {
    match op
    case Register(u, salt, v, id, sid) => OnStore(s, Registered(s.store, now, u, salt, v, id, sid))
    case LoginStep1(u, A, random, cid) => OnStore(s, FirstStep(env, s.store, now, u, A, random, cid))
    case LoginStep2(cid, m1, t, sid) => SecondStep(env, s, now, cid, m1, t, sid)
    case GenerateTotp(u, secret) => OnStore(s, TotpGenerated(s.store, u, secret))
    case EnableTotp(u, code) => OnStore(s, TotpEnabled(env, s.store, now, u, code))
    case VerifyTotp(t, code, sid) => TotpVerified(env, s, now, t, code, sid)
    case WebAuthnRegisterOptions(u, c) => OnStore(s, RegisterOptions(s.store, now, u, c))
    case VerifyWebAuthnRegister(u, r) => OnStore(s, CredentialRegistered(env, s.store, now, u, r))
    case WebAuthnLoginOptions(t, c) => LoginOptions(s, now, t, c)
    case VerifyWebAuthnLogin(t, r, sid) => WebAuthnVerified(env, s, now, t, r, sid)
    case PasskeyLoginOptions(a, c) => PasskeyOptions(s, now, a, c)
    case VerifyPasskeyLogin(c, r, owner, sid) => PasskeyVerified(env, s, now, c, r, owner, sid)
    case RevokeSession(id, jti, sid) => OnStore(s, SessionRevoked(s.store, now, id, jti, sid))
    case PruneOldChallenges => (s, Success)
  }

  // The operations that end by pruning, when they succeed.
  predicate Prunes(op: Op, response: Response) {
    op.PruneOldChallenges? || ((op.LoginStep1? || op.PasskeyLoginOptions?) && !response.Error?)
  }

  /** One operation of the service. With `pruning` off, nothing stale is ever thrown away. */
  function Step(env: Env, s: State, now: int, op: Op, pruning: bool): (State, Response) {
    var (s1, response) := Serve(env, s, now, op);
    (if pruning && Prunes(op, response) then Pruned(s1, now) else s1, response)
  }

  // ---------- Runs ----------

  datatype Event = Event(now: int, op: Op)

  ghost predicate Monotone(evs: seq<Event>) {
    forall i, j :: 0 <= i <= j < |evs| ==> evs[i].now <= evs[j].now
  }

  function StateAt(env: Env, evs: seq<Event>, n: nat, pruning: bool): State
    requires n <= |evs|
  {
    if n == 0 then EMPTY
    else Step(env, StateAt(env, evs, n - 1, pruning), evs[n - 1].now, evs[n - 1].op, pruning).0
  }

  function ResponseAt(env: Env, evs: seq<Event>, i: nat, pruning: bool): Response
    requires i < |evs|
  {
    Step(env, StateAt(env, evs, i, pruning), evs[i].now, evs[i].op, pruning).1
  }
}
