/**
 * When the login service grants, refuses and changes what: registration, the two password steps, the set-up of second
 * factors, and revocation; and what any operation does to one account, session or challenge.
 */
module AuthAnswers {
  import opened Wrappers
  import opened JavaScript
  import opened BigEndian
  import opened SrpSession
  import opened AuthModel
  import opened AuthLockout
  import opened AuthProvenance
  import opened AuthFactors

  // ---------- Registration ----------

  /** A new name gets a fresh account and a session; a taken name or a missing value changes nothing. */
  lemma RegistersExactly(env: Env, s: State, now: int, op: Op)
    requires op.Register?
    ensures
      var (s', r) := Serve(env, s, now, op);
      var d, u := s.store, op.username;
      if u == "" || op.salt == [] || op.verifier.None? then s' == s && r.Error? && r.status == 400
      else if u in d.users then s' == s && r.Error? && r.status == 409
      else
        var user := User(op.newUserId, op.salt, op.verifier.value, 0, None, None, false, false, None);
        var session := Session(op.newUserId, u, Registration, false);
        && r == Granted(Token(op.newUserId, u, op.newSessionId, now / 1000, now / 1000 + 86_400))
        && s' == s.(store := d.(users := d.users[u := user], sessions := d.sessions[op.newSessionId := session]))
  {
  }

  // ---------- The password ----------

  predicate IsLocked(d: Store, u: Name, now: int) {
    u in d.users && d.users[u].lockoutUntil.Some? && now < d.users[u].lockoutUntil.value
  }

  /**
   * The first step: refused for a locked account; otherwise a challenge for five minutes over the account's own salt
   * and verifier, or over dummies for an unknown name, so that both get the same kind of answer.
   */
  lemma IssuesExactly(env: Env, s: State, now: int, op: Op)
    requires op.LoginStep1?
    ensures
      var (s', r) := Serve(env, s, now, op);
      var d, u := s.store, op.username;
      if u == "" || op.A.None? then s' == s && r.Error? && r.status == 400
      else if IsLocked(d, u, now) then s' == s && r.Error? && r.status == 423
      else
        var salt := if u in d.users then d.users[u].salt else env.dummy(u).0;
        var v := if u in d.users then d.users[u].verifier else env.dummy(u).1;
        var (b, B) := env.ephemeral(v, op.random);
        && r == ChallengeIssued(salt, B, op.challengeId)
        && s' == s.(store := d.(challenges :=
                      d.challenges[op.challengeId :=
                        Entry(LoginChallenge(u, op.A.value, b, B, salt, v, now), now + 300_000)]))
  {
  }

  // The proof is accepted over a live challenge of an account that exists and is not locked.
  predicate ProofAccepted(env: Env, d: Store, now: int, cid: Id, m1: Bytes) {
    && cid in d.challenges && now < d.challenges[cid].expiresAt
    && var c := d.challenges[cid].challenge;
    c.username in d.users && !IsLocked(d, c.username, now) && env.srp(c, m1).Accepted?
  }

  // The proof is rejected over a live challenge while the account, if there is one, is not locked.
  predicate ProofRejected(env: Env, d: Store, now: int, cid: Id, m1: Bytes) {
    && cid in d.challenges && now < d.challenges[cid].expiresAt
    && var c := d.challenges[cid].challenge;
    && !IsLocked(d, c.username, now)
    && (env.srp(c, m1).Rejected? || (env.srp(c, m1).Accepted? && c.username !in d.users))
  }

  /**
   * The second step: exactly an accepted proof gets on, to a session without a second factor and to a token with one;
   * a rejected proof is counted for an existing account; whatever happens the challenge is gone.
   */
  lemma ChecksExactly(env: Env, s: State, now: int, op: Op)
    requires op.LoginStep2?
    ensures
      var (s', r) := Serve(env, s, now, op);
      var d, cid := s.store, op.challengeId;
      && s'.passkeyChallenges == s.passkeyChallenges
      && s'.store == d.(challenges := d.challenges - {cid}, users := s'.store.users, sessions := s'.store.sessions)
      && if ProofAccepted(env, d, now, cid, op.m1) then
           var c := d.challenges[cid].challenge;
           var u, user := c.username, d.users[c.username].(failedAttempts := 0, lockoutUntil := None);
           var evidence := env.srp(c, op.m1).serverEvidence;
           && s'.store.users == d.users[u := user]
           && if user.totpEnabled || user.webauthnEnabled then
                && r == MfaRequired(evidence, op.newMfaToken, user.totpEnabled, user.webauthnEnabled)
                && s'.mfaSessions == s.mfaSessions[op.newMfaToken := MfaSession(u, now)]
                && s'.store.sessions == d.sessions
              else
                && r == LoggedIn(evidence, Token(user.id, u, op.newSessionId, now / 1000, now / 1000 + 86_400))
                && s'.mfaSessions == s.mfaSessions
                && s'.store.sessions == d.sessions[op.newSessionId := Session(user.id, u, Srp6a, false)]
         else
           && s'.mfaSessions == s.mfaSessions && s'.store.sessions == d.sessions && r.Error?
           && if ProofRejected(env, d, now, cid, op.m1) then
                var u := d.challenges[cid].challenge.username;
                && r.status == 401
                && s'.store.users == if u in d.users then d.users[u := OneMoreFailure(d.users[u], now)] else d.users
              else
                && s'.store.users == d.users
                && r.status == if cid !in d.challenges || now >= d.challenges[cid].expiresAt then 401
                               else if IsLocked(d, d.challenges[cid].challenge.username, now) then 423 else 500
  {
    hide PasswordAccepted, PasswordRejected;
    var d, cid := s.store, op.challengeId;
    if Live(d, cid, now) {
      var d1, c := d.(challenges := d.challenges - {cid}), d.challenges[cid].challenge;
      RejectedIs(d1, now, c.username);
      if env.srp(c, op.m1).Accepted? && c.username in d.users {
        AcceptedIs(d1, now, c.username, env.srp(c, op.m1).serverEvidence, op.newMfaToken, op.newSessionId);
      }
    }
  }

  // The fifth failure and every later one lock the account for a quarter of an hour.
  function OneMoreFailure(user: User, now: int): User {
    user.(failedAttempts := user.failedAttempts + 1,
          lockoutUntil := if user.failedAttempts >= 4 then Some(now + 900_000) else user.lockoutUntil)
  }

  lemma RejectedIs(d: Store, now: int, u: Name)
    ensures
      var (d', r) := PasswordRejected(d, now, u);
      && r.Error? && r.status == 401
      && d' == d.(users := if u in d.users then d.users[u := OneMoreFailure(d.users[u], now)] else d.users)
  {
  }

  lemma AcceptedIs(d: Store, now: int, u: Name, evidence: Bytes, t: Id, sid: Id)
    requires u in d.users
    ensures
      var (d', r) := PasswordAccepted(d, now, u, evidence, t, sid);
      var user := d.users[u].(failedAttempts := 0, lockoutUntil := None);
      && d' == d.(users := d.users[u := user], sessions := d'.sessions)
      && if user.totpEnabled || user.webauthnEnabled
         then r == MfaRequired(evidence, t, user.totpEnabled, user.webauthnEnabled) && d'.sessions == d.sessions
         else
           && r == LoggedIn(evidence, Token(user.id, u, sid, now / 1000, now / 1000 + 86_400))
           && d'.sessions == d.sessions[sid := Session(user.id, u, Srp6a, false)]
  {
  }

  // ---------- Setting up second factors ----------

  predicate SecretSet(d: Store, u: Name) {
    u in d.users && d.users[u].totpSecret.Some? && d.users[u].totpSecret.value != ""
  }

  /** A new secret leaves the factor as it is; it goes on exactly with a right code for the stored secret. */
  lemma TotpSetUpExactly(env: Env, s: State, now: int, op: Op)
    requires op.GenerateTotp? || op.EnableTotp?
    ensures
      var (s', r) := Serve(env, s, now, op);
      var d, u := s.store, op.username;
      if op.GenerateTotp? && u in d.users then
        && r == Secret(op.newSecret)
        && s' == s.(store := d.(users := d.users[u := d.users[u].(totpSecret := Some(op.newSecret))]))
      else if op.EnableTotp? && SecretSet(d, u) && env.totp(d.users[u].totpSecret.value, op.code, now) == Ok(true) then
        r == Success && s' == s.(store := d.(users := d.users[u := d.users[u].(totpEnabled := true)]))
      else r.Error? && s' == s
  {
  }

  // The account has an open challenge for registering a security key.
  predicate KeySetUpOpen(d: Store, now: int, u: Name) {
    u in d.users && u in d.webauthnChallenges && now <= d.webauthnChallenges[u].createdAt + 300_000
  }

  /** A security key is added, and the factor switched on, exactly for a verified answer to an open challenge. */
  lemma KeySetUpExactly(env: Env, s: State, now: int, op: Op)
    requires op.WebAuthnRegisterOptions? || op.VerifyWebAuthnRegister?
    ensures
      var (s', r) := Serve(env, s, now, op);
      var d, u := s.store, op.username;
      if op.WebAuthnRegisterOptions? then
        if u in d.users then
          && r == Options(op.newChallenge)
          && s' == s.(store := d.(webauthnChallenges :=
                        d.webauthnChallenges[u := WebAuthnChallenge(op.newChallenge, now)]))
        else r.Error? && s' == s
      else if !KeySetUpOpen(d, now, u) then r.Error? && s' == s
      else
        var verified := env.register(d.webauthnChallenges[u].challenge, op.response);
        var user := d.users[u];
        var creds := if user.credentials.Some? then user.credentials.value else [];
        && (r == Success <==> verified.Some?) && (verified.None? ==> r.Error?)
        && s' == s.(store := d.(webauthnChallenges := d.webauthnChallenges - {u},
                                users := if verified.Some?
                                         then d.users[u := user.(credentials := Some(creds + [verified.value]),
                                                                 webauthnEnabled := true)]
                                         else d.users))
  {
  }

  /** A challenge for a security key needs an open token of an account that uses one; for a passkey, a known account. */
  lemma OptionsExactly(env: Env, s: State, now: int, op: Op)
    requires op.WebAuthnLoginOptions? || op.PasskeyLoginOptions?
    ensures
      var (s', r) := Serve(env, s, now, op);
      var d := s.store;
      if op.WebAuthnLoginOptions? then
        if FreshToken(s, op.mfaToken, now) && UsesKeys(d, s.mfaSessions[op.mfaToken].username) then
          var u := s.mfaSessions[op.mfaToken].username;
          && r == Options(op.newChallenge)
          && s' == s.(store := d.(webauthnChallenges :=
                        d.webauthnChallenges[u := WebAuthnChallenge(op.newChallenge, now)]))
        else r.Error? && s' == s
      else if op.account.Some? && op.account.value != "" && !HasKeys(d, op.account.value) then r.Error? && s' == s
      else
        var named := if op.account == Some("") then None else op.account;
        && r == Options(op.newChallenge)
        && s' == s.(passkeyChallenges := s.passkeyChallenges[op.newChallenge := PasskeyChallenge(named, now)])
  {
  }

  predicate UsesKeys(d: Store, u: Name) {
    u in d.users && d.users[u].webauthnEnabled && d.users[u].credentials.Some?
  }

  predicate HasKeys(d: Store, u: Name) {
    u in d.users && d.users[u].credentials.Some? && |d.users[u].credentials.value| > 0
  }

  // ---------- Revocation ----------

  /** Exactly the account's own sessions can be revoked, but not the one the caller uses; no other session changes. */
  lemma RevokesExactly(env: Env, s: State, now: int, op: Op)
    requires op.RevokeSession?
    ensures
      var (s', r) := Serve(env, s, now, op);
      var d, sid := s.store, op.sessionId;
      var current := op.currentJti == Some(sid) && sid != "";
      if !current && sid in d.sessions && d.sessions[sid].userId == op.userId then
        && r == Success
        && s' == s.(store := d.(sessions := d.sessions[sid := d.sessions[sid].(isRevoked := true)],
                                denylist := d.denylist[sid := now + 86_400_000]))
      else s' == s && r.Error? && r.status == if current then 400 else 404
  {
  }

  // ---------- One account ----------

  /**
   * The life of an account, apart from the counters of its credentials: only the second password step touches failures
   * and lock, only the set-up operations of the account itself touch its factors, and nothing touches name, salt or
   * verifier.
   */
  lemma AccountFate(env: Env, s: State, now: int, op: Op, u: Name)
    requires u in s.store.users
    requires !RightAssertion(env, s, now, op) && !RightPasskey(env, s, now, op)
    ensures
      var (s', r) := Serve(env, s, now, op);
      var d, user := s.store, s.store.users[u];
      u in s'.store.users && s'.store.users[u] ==
        if op.LoginStep2? && ProofAccepted(env, d, now, op.challengeId, op.m1)
           && d.challenges[op.challengeId].challenge.username == u
        then user.(failedAttempts := 0, lockoutUntil := None)
        else if op.LoginStep2? && ProofRejected(env, d, now, op.challengeId, op.m1)
                && d.challenges[op.challengeId].challenge.username == u
        then OneMoreFailure(user, now)
        else if op.GenerateTotp? && op.username == u then user.(totpSecret := Some(op.newSecret))
        else if op.EnableTotp? && op.username == u && r == Success then user.(totpEnabled := true)
        else if op.VerifyWebAuthnRegister? && op.username == u && r == Success
        then user.(webauthnEnabled := true, credentials := s'.store.users[u].credentials)
        else user
  {
    hide Serve, RightAssertion, RightPasskey;
    match op {
      case Register(_, _, _, _, _) => RegistersExactly(env, s, now, op);
      case LoginStep1(_, _, _, _) => IssuesExactly(env, s, now, op);
      case LoginStep2(_, _, _, _) => ChecksExactly(env, s, now, op);
      case GenerateTotp(_, _) => TotpSetUpExactly(env, s, now, op);
      case EnableTotp(_, _) => TotpSetUpExactly(env, s, now, op);
      case VerifyTotp(_, _, _) => CodeGrantsExactly(env, s, now, op);
      case WebAuthnRegisterOptions(_, _) => KeySetUpExactly(env, s, now, op);
      case VerifyWebAuthnRegister(_, _) => KeySetUpExactly(env, s, now, op);
      case WebAuthnLoginOptions(_, _) => OptionsExactly(env, s, now, op);
      case VerifyWebAuthnLogin(_, _, _) => AssertionGrantsExactly(env, s, now, op);
      case PasskeyLoginOptions(_, _) => OptionsExactly(env, s, now, op);
      case VerifyPasskeyLogin(_, _, _, _) => PasskeyGrantsExactly(env, s, now, op);
      case RevokeSession(_, _, _) => RevokesExactly(env, s, now, op);
      case PruneOldChallenges => PruningServesNothing(env, s, now);
    }
  }

  lemma PruningServesNothing(env: Env, s: State, now: int)
    ensures Serve(env, s, now, PruneOldChallenges) == (s, Success)
  {
  }

  // ---------- Pruning ----------

  /**
   * With pruning on, a successful first step, passkey challenge or explicit pruning leaves exactly the tokens and
   * passkey challenges of the last five minutes.
   */
  lemma PrunesExactly(env: Env, s: State, now: int, op: Op)
    ensures
      var (served, r) := Serve(env, s, now, op);
      var (s', r') := Step(env, s, now, op, true);
      && r' == r && s'.store == served.store
      && if op.PruneOldChallenges? || ((op.LoginStep1? || op.PasskeyLoginOptions?) && !r.Error?) then
           && (forall t :: t in s'.mfaSessions <==>
                 t in served.mfaSessions && now <= served.mfaSessions[t].createdAt + 300_000)
           && (forall c :: c in s'.passkeyChallenges <==>
                 c in served.passkeyChallenges && now <= served.passkeyChallenges[c].createdAt + 300_000)
           && (forall t :: t in s'.mfaSessions ==> s'.mfaSessions[t] == served.mfaSessions[t])
           && (forall c :: c in s'.passkeyChallenges ==> s'.passkeyChallenges[c] == served.passkeyChallenges[c])
         else s' == served
  {
    hide Serve;
  }
}
