/** The login service and the password protocol together: an honest client gets in. */
module AuthHonestLogin {
  import opened Wrappers
  import opened BigEndian
  import opened SrpSession
  import opened AuthModel
  import opened AuthLockout
  import opened AuthProvenance
  import opened JavaScript
  import Base32
  import Totp

  /**
   * The service with its own password and one-time-code checks, for a hash, a modulus, an encoding of names and a
   * keyed hash. Codes are accepted one step early or late.
   */
  function WithProtocol(env: Env, H: Hash, N: nat, bytes: Name -> Bytes, hmac: Totp.Hmac): Env
    requires N > 0
  {
    env.(ephemeral := (v, random) => Ephemeral(H, N, v, random),
         srp := (c: LoginChallenge, m1) => Verify(H, N, bytes(c.username), c.salt, c.A, c.B, c.verifier, c.b, m1),
         totp := (secret, code, now) => Totp.Verified(hmac, secret, code, 1, now))
  }

  function Ephemeral(H: Hash, N: nat, v: nat, random: Bytes): (nat, nat)
    requires N > 0
  {
    var b := ValueBE(random) % N;
    (b, ServerPublic(H, N, v, b))
  }

  /**
   * A registered user whose client holds the right master key gets past the password within five minutes of the
   * first step, whatever else the service does in between, as long as the challenge stands and the account is
   * there and not locked; the client recognises the server by its evidence. The client gives up only on a zero
   * ephemeral value or scrambler.
   */
  lemma HonestLoginSucceeds(env0: Env, H: Hash, N: nat, bytes: Name -> Bytes, hmac: Totp.Hmac, d: Store, t1: int,
                            u: Name, masterKey: Bytes, aRandom: Bytes, bRandom: Bytes, cid: Id, s2: State, t2: int,
                            mfaToken: Id, sid: Id)
    requires GroupModulus(N)
    requires u != "" && u in d.users && !Locked(d, u, t1)
    requires d.users[u].verifier == CalculateVerifier(H, N, bytes(u), masterKey, d.users[u].salt)
    requires t2 < t1 + CHALLENGE_TTL && u in s2.store.users && !Locked(s2.store, u, t2)
    ensures
      var env := WithProtocol(env0, H, N, bytes, hmac);
      var (a, A) := GenerateClientEphemeral(N, aRandom);
      var (d1, r1) := FirstStep(env, d, t1, u, Some(A), bRandom, cid);
      && r1.ChallengeIssued? && cid in d1.challenges
      && var session := ClientSession(H, N, bytes(u), r1.salt, a, A, r1.B, masterKey);
      && (session.Err? <==> r1.B % N == 0 || Scrambler(H, A, r1.B) == 0)
      && (session.Ok? && cid in s2.store.challenges && s2.store.challenges[cid] == d1.challenges[cid] ==>
            var (s3, r2) := SecondStep(env, s2, t2, cid, session.value.m1, mfaToken, sid);
            && (r2.LoggedIn? || r2.MfaRequired?) && r2.serverEvidence == session.value.m2
            && (r2.MfaRequired? ==> mfaToken in s3.mfaSessions && s3.mfaSessions[mfaToken] == MfaSession(u, t2)))
  {
    hide Verify, ClientSession, ServerPublic, CalculateVerifier, Locked, FirstStep, SecondStep;
    var env := WithProtocol(env0, H, N, bytes, hmac);
    var (a, A) := GenerateClientEphemeral(N, aRandom);
    var salt := d.users[u].salt;
    var (d1, r1) := FirstStep(env, d, t1, u, Some(A), bRandom, cid);
    FirstStepIssues(env, d, t1, u, A, bRandom, cid);
    HandshakeSucceeds(H, N, bytes(u), salt, masterKey, aRandom, bRandom);
    var session := ClientSession(H, N, bytes(u), salt, a, A, r1.B, masterKey);
    if session.Ok? && cid in s2.store.challenges && s2.store.challenges[cid] == d1.challenges[cid] {
      RightProofPasses(env, s2, t2, cid, session.value.m1, mfaToken, sid);
    }
  }

  lemma FirstStepIssues(env: Env, d: Store, now: int, u: Name, A: nat, random: Bytes, cid: Id)
    requires u != "" && u in d.users && !Locked(d, u, now)
    ensures
      var (d', r) := FirstStep(env, d, now, u, Some(A), random, cid);
      var user := d.users[u];
      var (b, B) := env.ephemeral(user.verifier, random);
      && r == ChallengeIssued(user.salt, B, cid)
      && d'.challenges
         == d.challenges[cid := Entry(LoginChallenge(u, A, b, B, user.salt, user.verifier, now), now + CHALLENGE_TTL)]
  {
    hide Locked;
  }

  lemma RightProofPasses(env: Env, s: State, now: int, cid: Id, m1: Bytes, t: Id, sid: Id)
    requires Live(s.store, cid, now)
    requires var c := s.store.challenges[cid].challenge;
             c.username in s.store.users && !Locked(s.store, c.username, now) && env.srp(c, m1).Accepted?
    ensures
      var (s', r) := SecondStep(env, s, now, cid, m1, t, sid);
      && (r.LoggedIn? || r.MfaRequired?)
      && r.serverEvidence == env.srp(s.store.challenges[cid].challenge, m1).serverEvidence
      && (r.MfaRequired? ==> t in s'.mfaSessions
                             && s'.mfaSessions[t] == MfaSession(s.store.challenges[cid].challenge.username, now))
  {
  }

  /**
   * The second factor: while the token that the password gave is there and at most five minutes old, the code that
   * the user's authenticator shows opens the session, as long as the two clocks' steps differ by at most one.
   */
  lemma HonestFactorPasses(env0: Env, H: Hash, N: nat, bytes: Name -> Bytes, hmac: Totp.Algorithm -> Totp.Hmac,
                           s: State,
                           now: int, u: Name, mfaToken: Id, minted: int, clientSec: nat, checked: bool, sid: Id)
    requires N > 0 && u in s.store.users && s.store.users[u].totpEnabled && Truthy(s.store.users[u].totpSecret)
    requires Base32.ServerDecode(s.store.users[u].totpSecret.value).Ok?
    requires Base32.ClientDecode(s.store.users[u].totpSecret.value).Ok?
    requires mfaToken in s.mfaSessions && s.mfaSessions[mfaToken] == MfaSession(u, minted)
             && now <= minted + FIVE_MINUTES
    requires -1 <= clientSec / 30 - now / 1000 / 30 <= 1
    ensures
      var env := WithProtocol(env0, H, N, bytes, hmac(Totp.Sha1));
      var shown := Totp.Shown(hmac, s.store.users[u].totpSecret.value, clientSec, 30, 6, Totp.Sha1, checked);
      && shown.Ok?
      && var (s', r) := TotpVerified(env, s, now, mfaToken, shown.value, sid);
      && r == Granted(MakeToken(s.store.users[u], u, sid, now)) && mfaToken !in s'.mfaSessions
      && sid in s'.store.sessions && s'.store.sessions[sid] == Session(s.store.users[u].id, u, MfaTotp, false)
  {
    hide Totp.Shown, Totp.Verified, Base32.ServerDecode, Base32.ClientDecode, Verify;
    Totp.ShownCodeIsAccepted(hmac, s.store.users[u].totpSecret.value, clientSec, 30, 6, checked, 1, now);
  }

  // ---------- Over whole runs ----------

  // Event i is the second step that belongs to the first step at event j, within the challenge's five minutes.
  ghost predicate SecondStepOf(env: Env, evs: seq<Event>, j: nat, i: nat, pruning: bool, u: Name, A: nat, random: Bytes,
                               cid: Id)
  {
    && j < i < |evs| && evs[i].now < evs[j].now + CHALLENGE_TTL
    && evs[j].op == LoginStep1(u, Some(A), random, cid) && evs[i].op.LoginStep2? && evs[i].op.challengeId == cid
    && forall k :: j < k < i ==> !TakenAt(evs, k, cid) && !IssuedAt(env, evs, k, pruning, cid)
  }

  // The account's verifier belongs to the client's master key, and the account is open at both events.
  ghost predicate AccountReady(env: Env, H: Hash, N: nat, bytes: Name -> Bytes, evs: seq<Event>, j: nat, i: nat,
                               pruning: bool, u: Name, masterKey: Bytes)
    requires N > 0 && j < |evs| && i < |evs|
  {
    var d := StateAt(env, evs, j, pruning).store;
    && u != "" && u in d.users && !Locked(d, u, evs[j].now)
    && !Locked(StateAt(env, evs, i, pruning).store, u, evs[i].now)
    && d.users[u].verifier == CalculateVerifier(H, N, bytes(u), masterKey, d.users[u].salt)
  }

  // Unless the client stops on a zero value, its proof is accepted and the server's evidence is the one it expects.
  ghost predicate PasswordPasses(env: Env, H: Hash, N: nat, bytes: Name -> Bytes, evs: seq<Event>, j: nat, i: nat,
                                 pruning: bool, u: Name, masterKey: Bytes, a: nat, A: nat)
    requires N > 0 && j < |evs| && i < |evs| && evs[i].op.LoginStep2?
  {
    var r1, r2 := ResponseAt(env, evs, j, pruning), ResponseAt(env, evs, i, pruning);
    && r1.ChallengeIssued?
    && var session := ClientSession(H, N, bytes(u), r1.salt, a, A, r1.B, masterKey);
    && (session.Err? <==> r1.B % N == 0 || Scrambler(H, A, r1.B) == 0)
    && (session.Ok? && evs[i].op.m1 == session.value.m1 ==>
          (r2.LoggedIn? || r2.MfaRequired?) && r2.serverEvidence == session.value.m2)
  }

  /**
   * The honest login over any run: whatever happens between its two steps, as long as nobody takes or reissues its
   * challenge and the account is not locked at either, a client with the right master key passes the password and
   * recognises the server.
   */
  lemma HonestRunSucceeds(env0: Env, H: Hash, N: nat, bytes: Name -> Bytes, hmac: Totp.Hmac, evs: seq<Event>,
                          pruning: bool, j: nat, i: nat, u: Name, masterKey: Bytes, aRandom: Bytes, bRandom: Bytes,
                          cid: Id)
    requires GroupModulus(N)
    ensures
      var env := WithProtocol(env0, H, N, bytes, hmac);
      var (a, A) := GenerateClientEphemeral(N, aRandom);
      SecondStepOf(env, evs, j, i, pruning, u, A, bRandom, cid)
      && AccountReady(env, H, N, bytes, evs, j, i, pruning, u, masterKey) ==>
        PasswordPasses(env, H, N, bytes, evs, j, i, pruning, u, masterKey, a, A)
  {
    hide Verify, ClientSession, ServerPublic, CalculateVerifier, Locked, FirstStep, SecondStep;
    var env := WithProtocol(env0, H, N, bytes, hmac);
    var (a, A) := GenerateClientEphemeral(N, aRandom);
    if SecondStepOf(env, evs, j, i, pruning, u, A, bRandom, cid)
       && AccountReady(env, H, N, bytes, evs, j, i, pruning, u, masterKey) {
      var s1, s2, op := StateAt(env, evs, j, pruning), StateAt(env, evs, i, pruning), evs[i].op;
      KnownForEver(env, evs, j, i, pruning, u);
      HonestLoginSucceeds(env0, H, N, bytes, hmac, s1.store, evs[j].now, u, masterKey, aRandom, bRandom, cid, s2,
                          evs[i].now, op.newMfaToken, op.newSessionId);
      FirstStepAt(env, evs, j, pruning, u, A, bRandom, cid);
      ChallengeStands(env, evs, j, i, pruning, cid);
      SecondStepAt(env, evs, i, pruning);
    }
  }

  lemma FirstStepAt(env: Env, evs: seq<Event>, j: nat, pruning: bool, u: Name, A: nat, random: Bytes, cid: Id)
    requires j < |evs| && evs[j].op == LoginStep1(u, Some(A), random, cid)
    ensures
      var (d, r) := FirstStep(env, StateAt(env, evs, j, pruning).store, evs[j].now, u, Some(A), random, cid);
      ResponseAt(env, evs, j, pruning) == r && StateAt(env, evs, j + 1, pruning).store == d
      && (r.ChallengeIssued? ==> IssuedAt(env, evs, j, pruning, cid))
  {
    hide FirstStep;
  }

  lemma SecondStepAt(env: Env, evs: seq<Event>, i: nat, pruning: bool)
    requires i < |evs| && evs[i].op.LoginStep2?
    ensures
      var op := evs[i].op;
      ResponseAt(env, evs, i, pruning)
      == SecondStep(env, StateAt(env, evs, i, pruning), evs[i].now, op.challengeId, op.m1, op.newMfaToken,
                    op.newSessionId).1
  {
    hide SecondStep;
  }

  // Event l checks a code for the token that event i minted at most five minutes before.
  ghost predicate CodeFollows(env: Env, evs: seq<Event>, i: nat, l: nat, pruning: bool, mfaToken: Id) {
    && Monotone(evs) && i < l < |evs| && evs[l].now <= evs[i].now + FIVE_MINUTES
    && TokenMintedAt(env, evs, i, pruning, mfaToken) && evs[l].op.VerifyTotp? && evs[l].op.mfaToken == mfaToken
    && forall k :: i < k < l ==>
         !TokenUsedAt(env, evs, k, pruning, mfaToken) && !TokenMintedAt(env, evs, k, pruning, mfaToken)
  }

  // The account asks for codes, and the code that was sent is the one that the user's authenticator shows.
  ghost predicate CodeIsShown(env: Env, hmac: Totp.Algorithm -> Totp.Hmac, evs: seq<Event>, l: nat, pruning: bool,
                              u: Name, clientSec: nat, checked: bool)
    requires l < |evs| && evs[l].op.VerifyTotp?
  {
    var users := StateAt(env, evs, l, pruning).store.users;
    && u in users && users[u].totpEnabled && Truthy(users[u].totpSecret)
    && var secret := users[u].totpSecret.value;
    && Base32.ServerDecode(secret).Ok? && Base32.ClientDecode(secret).Ok?
    && Totp.Shown(hmac, secret, clientSec, 30, 6, Totp.Sha1, checked) == Ok(evs[l].op.code)
  }

  // Event l opens a second-factor session of the account.
  ghost predicate FactorSessionOpens(env: Env, evs: seq<Event>, l: nat, pruning: bool, u: Name)
    requires l < |evs| && evs[l].op.VerifyTotp?
  {
    var after, sid := StateAt(env, evs, l + 1, pruning).store, evs[l].op.newSessionId;
    && ResponseAt(env, evs, l, pruning).Granted?
    && u in after.users && sid in after.sessions
    && after.sessions[sid] == Session(after.users[u].id, u, MfaTotp, false)
  }

  /**
   * The second factor over any run: within five minutes of the password, whatever happens in between, as long as
   * nobody uses or mints the token again, the code that the authenticator shows opens a session.
   */
  lemma HonestFactorRunPasses(env0: Env, H: Hash, N: nat, bytes: Name -> Bytes, hmac: Totp.Algorithm -> Totp.Hmac,
                              evs: seq<Event>, pruning: bool, i: nat, l: nat, mfaToken: Id, clientSec: nat,
                              checked: bool)
    requires N > 0 && i < l < |evs| && evs[i].op.LoginStep2?
    requires -1 <= clientSec / 30 - evs[l].now / 1000 / 30 <= 1
    ensures
      var env := WithProtocol(env0, H, N, bytes, hmac(Totp.Sha1));
      var u := AccountAt(env, evs, i, pruning);
      CodeFollows(env, evs, i, l, pruning, mfaToken)
      && CodeIsShown(env, hmac, evs, l, pruning, u, clientSec, checked) ==>
        FactorSessionOpens(env, evs, l, pruning, u)
  {
    hide Totp.Shown, Totp.Verified, Base32.ServerDecode, Base32.ClientDecode, Verify;
    var env := WithProtocol(env0, H, N, bytes, hmac(Totp.Sha1));
    var u := AccountAt(env, evs, i, pruning);
    if CodeFollows(env, evs, i, l, pruning, mfaToken)
       && CodeIsShown(env, hmac, evs, l, pruning, u, clientSec, checked) {
      TokenStands(env, evs, i, l, pruning, mfaToken);
      HonestFactorPasses(env0, H, N, bytes, hmac, StateAt(env, evs, l, pruning), evs[l].now, u, mfaToken, evs[i].now,
                         clientSec, checked, evs[l].op.newSessionId);
      FactorAt(env, evs, l, pruning);
    }
  }

  lemma FactorAt(env: Env, evs: seq<Event>, l: nat, pruning: bool)
    requires l < |evs| && evs[l].op.VerifyTotp?
    ensures
      var op := evs[l].op;
      (StateAt(env, evs, l + 1, pruning), ResponseAt(env, evs, l, pruning))
      == TotpVerified(env, StateAt(env, evs, l, pruning), evs[l].now, op.mfaToken, op.code, op.newSessionId)
  {
    hide TotpVerified;
  }
}
