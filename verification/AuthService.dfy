/** The login service as a class over its tables; every method carries out one step of the model, in place. */
module AuthService {
  import opened Wrappers
  import opened JavaScript
  import opened BigEndian
  import opened AuthModel

  // What one step is for the operations with the longest methods.

  lemma SecondStepIs(env: Env, s: State, now: int, cid: Id, m1: Bytes, t: Id, sid: Id)
    ensures Step(env, s, now, LoginStep2(cid, m1, t, sid), true) == SecondStep(env, s, now, cid, m1, t, sid)
  {
    hide SecondStep;
  }

  lemma WebAuthnStepIs(env: Env, s: State, now: int, t: Id, response: Assertion, sid: Id)
    ensures Step(env, s, now, VerifyWebAuthnLogin(t, response, sid), true)
            == WebAuthnVerified(env, s, now, t, response, sid)
  {
    hide WebAuthnVerified;
  }

  lemma PasskeyStepIs(env: Env, s: State, now: int, c: string, response: Assertion, owner: Option<Name>, sid: Id)
    ensures Step(env, s, now, VerifyPasskeyLogin(c, response, owner, sid), true)
            == PasskeyVerified(env, s, now, c, response, owner, sid)
  {
    hide PasskeyVerified;
  }

  lemma RevocationIs(env: Env, s: State, now: int, id: Id, jti: Option<Id>, sid: Id)
    ensures Step(env, s, now, RevokeSession(id, jti, sid), true)
            == OnStore(s, SessionRevoked(s.store, now, id, jti, sid))
  {
    hide SessionRevoked;
  }

  class LoginService {
    const env: Env
    var users: map<Name, User>
    var challenges: map<Id, Entry>
    var webauthnChallenges: map<Name, WebAuthnChallenge>
    var sessions: map<Id, Session>
    var denylist: map<Id, int>
    var mfaSessions: map<Id, MfaSession>
    var passkeyChallenges: map<string, PasskeyChallenge>

    ghost function Tables(): Store
      reads this
    {
      Store(users, challenges, webauthnChallenges, sessions, denylist)
    }

    ghost function Snapshot(): State
      reads this
    {
      State(Tables(), mfaSessions, passkeyChallenges)
    }

    constructor (env: Env)
      ensures this.env == env && Snapshot() == EMPTY
    {
      this.env := env;
      users, challenges, webauthnChallenges, sessions, denylist := map[], map[], map[], map[], map[];
      mfaSessions, passkeyChallenges := map[], map[];
    }

    /** Stores a session and signs its token. */
    method CreateSession(username: Name, how: Method, sid: Id, now: int) returns (token: Token)
      requires username in users
      modifies this`sessions
      ensures Tables() == WithSession(old(Tables()), username, how, sid)
      ensures token == MakeToken(users[username], username, sid, now)
    {
      var user := users[username];
      sessions := sessions[sid := Session(user.id, username, how, false)];
      token := MakeToken(user, username, sid, now);
    }

    /** Collects the stale keys of both tables, then deletes them one by one. */
    method PruneOldChallenges(now: int)
      modifies this`mfaSessions, this`passkeyChallenges
      ensures Snapshot() == Pruned(old(Snapshot()), now)
    {
      var fiveMinutesAgo := now - 5 * 60 * 1000;
      var staleMfa := set t | t in mfaSessions && mfaSessions[t].createdAt < fiveMinutesAgo;
      while staleMfa != {}
        invariant forall t :: t in mfaSessions <==>
                  t in old(mfaSessions) && (t in staleMfa || !Stale(old(mfaSessions)[t].createdAt, now))
        invariant forall t :: t in mfaSessions ==> mfaSessions[t] == old(mfaSessions)[t]
        invariant staleMfa <= mfaSessions.Keys && passkeyChallenges == old(passkeyChallenges)
        invariant forall t :: t in staleMfa ==> Stale(old(mfaSessions)[t].createdAt, now)
        decreases staleMfa
      {
        var t :| t in staleMfa;
        mfaSessions := mfaSessions - {t};
        staleMfa := staleMfa - {t};
      }
      assert mfaSessions == Pruned(old(Snapshot()), now).mfaSessions;
      var stalePasskey := set c | c in passkeyChallenges && passkeyChallenges[c].createdAt < fiveMinutesAgo;
      while stalePasskey != {}
        invariant mfaSessions == Pruned(old(Snapshot()), now).mfaSessions
        invariant forall c :: c in passkeyChallenges <==>
                    c in old(passkeyChallenges)
                        && (c in stalePasskey || !Stale(old(passkeyChallenges)[c].createdAt, now))
        invariant forall c :: c in passkeyChallenges ==> passkeyChallenges[c] == old(passkeyChallenges)[c]
        invariant stalePasskey <= passkeyChallenges.Keys
        invariant forall c :: c in stalePasskey ==> Stale(old(passkeyChallenges)[c].createdAt, now)
        decreases stalePasskey
      {
        var c :| c in stalePasskey;
        passkeyChallenges := passkeyChallenges - {c};
        stalePasskey := stalePasskey - {c};
      }
      assert passkeyChallenges == Pruned(old(Snapshot()), now).passkeyChallenges;
    }

    method Register(username: Name, salt: Bytes, verifier: Option<nat>, newUserId: Id, newSessionId: Id, now: int)
      returns (r: Response)
      modifies this
      ensures (Snapshot(), r)
              == Step(env, old(Snapshot()), now, Op.Register(username, salt, verifier, newUserId, newSessionId), true)
    {
      if username == "" || salt == [] || verifier.None? {
        return Error(400, "Missing registration parameters");
      }
      if username in users {
        return Error(409, "Username already exists");
      }
      users := users[username := User(newUserId, salt, verifier.value, 0, None, None, false, false, None)];
      var token := CreateSession(username, Registration, newSessionId, now);
      r := Granted(token);
    }

    method LoginStep1(username: Name, A: Option<nat>, random: Bytes, challengeId: Id, now: int) returns (r: Response)
      modifies this
      ensures (Snapshot(), r) == Step(env, old(Snapshot()), now, Op.LoginStep1(username, A, random, challengeId), true)
    {
      if username == "" || A.None? {
        return Error(400, "Missing login parameters");
      }
      var known := username in users;
      if known && users[username].lockoutUntil.Some? && users[username].lockoutUntil.value > now {
        return Error(423, "Account is locked. Try again later.");
      }
      var salt: Bytes;
      var v: nat;
      if known {
        salt, v := users[username].salt, users[username].verifier;
      } else {
        var dummy := env.dummy(username);
        salt, v := dummy.0, dummy.1;
      }
      var ephemeral := env.ephemeral(v, random);
      var challenge := LoginChallenge(username, A.value, ephemeral.0, ephemeral.1, salt, v, now);
      challenges := challenges[challengeId := Entry(challenge, now + 300 * 1000)];
      r := ChallengeIssued(salt, ephemeral.1, challengeId);
      assert (Snapshot(), r) == Serve(env, old(Snapshot()), now, Op.LoginStep1(username, A, random, challengeId));
      PruneOldChallenges(now);
    }

    method LoginStep2(challengeId: Id, m1: Bytes, newMfaToken: Id, newSessionId: Id, now: int) returns (r: Response)
      modifies this
      ensures (Snapshot(), r)
              == Step(env, old(Snapshot()), now, Op.LoginStep2(challengeId, m1, newMfaToken, newSessionId), true)
    {
      SecondStepIs(env, Snapshot(), now, challengeId, m1, newMfaToken, newSessionId);
      hide Step, Serve;
      // take the challenge out of the store, whatever happens next
      var live := challengeId in challenges && now < challenges[challengeId].expiresAt;
      if !live {
        challenges := challenges - {challengeId};
        return Error(401, "Invalid or expired login session");
      }
      var challenge := challenges[challengeId].challenge;
      challenges := challenges - {challengeId};
      var username := challenge.username;
      var known := username in users;
      if known && users[username].lockoutUntil.Some? && users[username].lockoutUntil.value > now {
        return Error(423, "Account is locked. Try again later.");
      }
      var verification := env.srp(challenge, m1);
      if verification.Mismatch? {
        return Error(500, "Internal server error");
      }
      if !verification.Accepted? || !known {
        if known {
          var user := users[username];
          user := user.(failedAttempts := user.failedAttempts + 1);
          if user.failedAttempts >= 5 {
            user := user.(lockoutUntil := Some(now + 15 * 60 * 1000));
          }
          users := users[username := user];
        }
        return Error(401, "Incorrect username or password");
      }
      var user := users[username].(failedAttempts := 0, lockoutUntil := None);
      users := users[username := user];
      if user.totpEnabled || user.webauthnEnabled {
        mfaSessions := mfaSessions[newMfaToken := MfaSession(username, now)];
        return MfaRequired(verification.serverEvidence, newMfaToken, user.totpEnabled, user.webauthnEnabled);
      }
      var token := CreateSession(username, Srp6a, newSessionId, now);
      r := LoggedIn(verification.serverEvidence, token);
    }

    method GenerateTotp(username: Name, newSecret: string, now: int) returns (r: Response)
      modifies this
      ensures (Snapshot(), r) == Step(env, old(Snapshot()), now, Op.GenerateTotp(username, newSecret), true)
    {
      if username !in users {
        return Error(404, "User not found");
      }
      users := users[username := users[username].(totpSecret := Some(newSecret))];
      r := Secret(newSecret);
    }

    method EnableTotp(username: Name, code: string, now: int) returns (r: Response)
      modifies this
      ensures (Snapshot(), r) == Step(env, old(Snapshot()), now, Op.EnableTotp(username, code), true)
    {
      if username !in users || !Truthy(users[username].totpSecret) {
        return Error(400, "TOTP not setup");
      }
      var isValid := env.totp(users[username].totpSecret.value, code, now);
      if isValid.Err? {
        return Error(500, "Internal server error");
      }
      if !isValid.value {
        return Error(401, "Invalid code");
      }
      users := users[username := users[username].(totpEnabled := true)];
      r := Success;
    }

    method VerifyTotp(mfaToken: Id, code: string, newSessionId: Id, now: int) returns (r: Response)
      modifies this
      ensures (Snapshot(), r) == Step(env, old(Snapshot()), now, Op.VerifyTotp(mfaToken, code, newSessionId), true)
    {
      if mfaToken !in mfaSessions || mfaSessions[mfaToken].createdAt < now - 5 * 60 * 1000 {
        return Error(401, "Invalid or expired MFA session");
      }
      var username := mfaSessions[mfaToken].username;
      if username !in users || !users[username].totpEnabled || !Truthy(users[username].totpSecret) {
        return Error(400, "TOTP is not enabled");
      }
      var isValid := env.totp(users[username].totpSecret.value, code, now);
      if isValid.Err? {
        return Error(500, "Internal server error");
      }
      if !isValid.value {
        return Error(401, "Invalid code");
      }
      mfaSessions := mfaSessions - {mfaToken};
      var token := CreateSession(username, MfaTotp, newSessionId, now);
      r := Granted(token);
    }

    method GenerateWebAuthnRegisterOptions(username: Name, newChallenge: string, now: int) returns (r: Response)
      modifies this
      ensures (Snapshot(), r)
              == Step(env, old(Snapshot()), now, Op.WebAuthnRegisterOptions(username, newChallenge), true)
    {
      if username !in users {
        return Error(404, "User not found");
      }
      webauthnChallenges := webauthnChallenges[username := WebAuthnChallenge(newChallenge, now)];
      r := Options(newChallenge);
    }

    method VerifyWebAuthnRegister(username: Name, response: Assertion, now: int) returns (r: Response)
      modifies this
      ensures (Snapshot(), r) == Step(env, old(Snapshot()), now, Op.VerifyWebAuthnRegister(username, response), true)
    {
      if username !in users {
        return Error(404, "User not found");
      }
      if username !in webauthnChallenges || webauthnChallenges[username].createdAt < now - 5 * 60 * 1000 {
        return Error(400, "Invalid or expired registration challenge");
      }
      var challenge := webauthnChallenges[username].challenge;
      webauthnChallenges := webauthnChallenges - {username};
      var credential := env.register(challenge, response);
      if credential.None? {
        return Error(400, "WebAuthn registration verification failed");
      }
      var user := users[username];
      var creds := if user.credentials.Some? then user.credentials.value else [];
      users := users[username := user.(credentials := Some(creds + [credential.value]), webauthnEnabled := true)];
      r := Success;
    }

    method GenerateWebAuthnLoginOptions(mfaToken: Id, newChallenge: string, now: int) returns (r: Response)
      modifies this
      ensures (Snapshot(), r) == Step(env, old(Snapshot()), now, Op.WebAuthnLoginOptions(mfaToken, newChallenge), true)
    {
      if mfaToken !in mfaSessions || mfaSessions[mfaToken].createdAt < now - 5 * 60 * 1000 {
        return Error(401, "Invalid or expired MFA session");
      }
      var username := mfaSessions[mfaToken].username;
      if username !in users || !users[username].webauthnEnabled || users[username].credentials.None? {
        return Error(400, "WebAuthn is not enabled for this account");
      }
      webauthnChallenges := webauthnChallenges[username := WebAuthnChallenge(newChallenge, now)];
      r := Options(newChallenge);
    }

    method VerifyWebAuthnLogin(mfaToken: Id, response: Assertion, newSessionId: Id, now: int) returns (r: Response)
      modifies this
      ensures (Snapshot(), r)
              == Step(env, old(Snapshot()), now, Op.VerifyWebAuthnLogin(mfaToken, response, newSessionId), true)
    {
      WebAuthnStepIs(env, Snapshot(), now, mfaToken, response, newSessionId);
      hide Step, Serve;
      if mfaToken !in mfaSessions || mfaSessions[mfaToken].createdAt < now - 5 * 60 * 1000 {
        return Error(401, "Invalid or expired MFA session");
      }
      var username := mfaSessions[mfaToken].username;
      if username !in users || !users[username].webauthnEnabled || users[username].credentials.None? {
        return Error(400, "WebAuthn not configured");
      }
      if username !in webauthnChallenges || webauthnChallenges[username].createdAt < now - 5 * 60 * 1000 {
        return Error(400, "Invalid or expired authentication challenge");
      }
      var challenge := webauthnChallenges[username].challenge;
      webauthnChallenges := webauthnChallenges - {username};
      var creds := users[username].credentials.value;
      var k := FindCredential(creds, response.id);
      if k == -1 {
        return Error(401, "Credential not recognized for this user");
      }
      var newCounter := env.assertion(creds[k], challenge, response);
      if newCounter.None? {
        return Error(401, "WebAuthn login verification failed");
      }
      users := users[username := Recount(users[username], k, newCounter.value)];
      mfaSessions := mfaSessions - {mfaToken};
      var token := CreateSession(username, MfaWebAuthn, newSessionId, now);
      r := Granted(token);
    }

    method GeneratePasskeyLoginOptions(account: Option<Name>, newChallenge: string, now: int) returns (r: Response)
      modifies this
      ensures (Snapshot(), r) == Step(env, old(Snapshot()), now, Op.PasskeyLoginOptions(account, newChallenge), true)
    {
      if Truthy(account) {
        var u := account.value;
        if u !in users || users[u].credentials.None? || |users[u].credentials.value| == 0 {
          return Error(400, "Passkey login not set up for this user");
        }
      }
      var named := if Truthy(account) then account else None;
      passkeyChallenges := passkeyChallenges[newChallenge := PasskeyChallenge(named, now)];
      r := Options(newChallenge);
      assert (Snapshot(), r) == Serve(env, old(Snapshot()), now, Op.PasskeyLoginOptions(account, newChallenge));
      PruneOldChallenges(now);
    }

    /** `owner` is the account that the lookup by credential found, when the challenge named none. */
    method VerifyPasskeyLogin(challenge: string, response: Assertion, newSessionId: Id, now: int)
      returns (r: Response, ghost owner: Option<Name>)
      modifies this
      ensures (Snapshot(), r)
              == Step(env, old(Snapshot()), now, Op.VerifyPasskeyLogin(challenge, response, owner, newSessionId), true)
    {
      forall o {
        PasskeyStepIs(env, Snapshot(), now, challenge, response, o, newSessionId);
      }
      hide Step, Serve;
      owner := None;
      if challenge == "" {
        return Error(400, "Missing challenge parameter"), owner;
      }
      if challenge !in passkeyChallenges || passkeyChallenges[challenge].createdAt < now - 5 * 60 * 1000 {
        return Error(400, "Invalid or expired login challenge"), owner;
      }
      var named := passkeyChallenges[challenge].username;
      passkeyChallenges := passkeyChallenges - {challenge};
      var account := named;
      if named.None? {
        if u :|
          && u in users && users[u].credentials.Some?
          && FindCredential(users[u].credentials.value, response.id) >= 0
        {
          account := Some(u);
          owner := Some(u);
        }
      }
      if account.None? || account.value !in users || users[account.value].credentials.None? {
        return Error(401, "User or passkey credential not found"), owner;
      }
      var username := account.value;
      var creds := users[username].credentials.value;
      var k := FindCredential(creds, response.id);
      if k == -1 {
        return Error(401, "Credential not recognized for this user"), owner;
      }
      var newCounter := env.assertion(creds[k], challenge, response);
      if newCounter.None? {
        return Error(401, "WebAuthn login verification failed"), owner;
      }
      users := users[username := Recount(users[username], k, newCounter.value)];
      var token := CreateSession(username, Passkey, newSessionId, now);
      r := Granted(token);
    }

    method RevokeSession(userId: Id, currentJti: Option<Id>, sessionId: Id, now: int) returns (r: Response)
      modifies this
      ensures (Snapshot(), r) == Step(env, old(Snapshot()), now, Op.RevokeSession(userId, currentJti, sessionId), true)
    {
      RevocationIs(env, Snapshot(), now, userId, currentJti, sessionId);
      hide Step, Serve;
      if Truthy(currentJti) && sessionId == currentJti.value {
        return Error(400, "Cannot revoke current session. Use standard logout flow.");
      }
      if sessionId !in sessions || sessions[sessionId].userId != userId {
        return Error(404, "Session not found");
      }
      sessions := sessions[sessionId := sessions[sessionId].(isRevoked := true)];
      denylist := denylist[sessionId := now + 86400 * 1000];
      r := Success;
    }
  }
}
