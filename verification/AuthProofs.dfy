/**
 * The login service with its own checks: over every run, whatever anybody sends, what a session rests on is a proof of
 * the password over a non-zero public value, and a code of the time.
 */
module AuthProofs {
  import opened Wrappers
  import opened Powers
  import opened BigEndian
  import opened SrpSession
  import opened AuthModel
  import opened AuthProvenance
  import opened AuthFactors
  import opened AuthAnswers
  import opened AuthHonestLogin
  import Base32
  import Totp

  // The service with the protocol's checks, and any authenticators.
  function Real(env: Env, H: Hash, N: nat, bytes: Name -> Bytes, hmac: Totp.Hmac): Env
    requires N > 0
  {
    WithProtocol(env, H, N, bytes, hmac)
  }

  // ---------- The password ----------

  // What the first step at event j put into its challenge.
  ghost predicate Remembers(env: Env, H: Hash, N: nat, evs: seq<Event>, j: nat, pruning: bool, c: LoginChallenge)
    requires N > 0 && j < |evs|
  {
    && evs[j].op.LoginStep1? && evs[j].op.A == Some(c.A) && evs[j].op.username == c.username
    && c.b == ValueBE(evs[j].op.random) % N && c.B == ServerPublic(H, N, c.verifier, c.b)
    && var users := StateAt(env, evs, j, pruning).store.users;
    (c.salt, c.verifier) == if c.username in users then (users[c.username].salt, users[c.username].verifier)
                            else env.dummy(c.username)
  }

  // Event i brings the evidence over the secret that the server computes from the challenge c of event j.
  ghost predicate ProvedBy(env: Env, H: Hash, N: nat, bytes: Name -> Bytes, evs: seq<Event>, pruning: bool, i: nat,
                           j: nat, c: LoginChallenge)
    requires N > 0
  {
    && j < i && Backs(env, evs, j, i, pruning) && Remembers(env, H, N, evs, j, pruning, c)
    && c.A % N != 0 && Scrambler(H, c.A, c.B) != 0
    && evs[i].op.m1 == Evidence(H, N, bytes(c.username), c.salt, c.A, c.B,
                                H(BE(Pow(c.A * Pow(c.verifier, Scrambler(H, c.A, c.B)), c.b) % N, 256)))
  }

  /**
   * Every session or second-factor token from a password login: the public value that was sent at its first step is not
   * zero modulo N, and the evidence is the one over the secret that the server computes from it and the verifier.
   */
  lemma MintsRestOnRightProofs(env0: Env, H: Hash, N: nat, bytes: Name -> Bytes, hmac: Totp.Hmac, evs: seq<Event>,
                               pruning: bool, i: nat)
    requires N > 0
    ensures
      var env := Real(env0, H, N, bytes, hmac);
      Mints(env, evs, i, pruning) ==> exists j, c :: ProvedBy(env, H, N, bytes, evs, pruning, i, j, c)
  {
    hide Serve, Verify, Scrambler, Evidence, ServerPublic, Pow, BE;
    var env := Real(env0, H, N, bytes, hmac);
    if Mints(env, evs, i, pruning) {
      var j := EveryMintIsBacked(env, evs, i, pruning);
      var c := IssuedAtEvent(env0, H, N, bytes, hmac, evs, j, pruning, evs[i].op.challengeId);
      VerdictExactly(H, N, bytes(c.username), c.salt, c.A, c.B, c.verifier, c.b, evs[i].op.m1);
      assert ProvedBy(env, H, N, bytes, evs, pruning, i, j, c);
    }
  }

  lemma IssuedAtEvent(env0: Env, H: Hash, N: nat, bytes: Name -> Bytes, hmac: Totp.Hmac, evs: seq<Event>, j: nat,
                      pruning: bool, cid: Id)
    returns (c: LoginChallenge)
    requires N > 0 && IssuedAt(Real(env0, H, N, bytes, hmac), evs, j, pruning, cid)
    ensures
      var env := Real(env0, H, N, bytes, hmac);
      && var cs := StateAt(env, evs, j + 1, pruning).store.challenges;
      cid in cs && cs[cid].challenge == c && Remembers(env, H, N, evs, j, pruning, c)
  {
    var env := Real(env0, H, N, bytes, hmac);
    var s, e := StateAt(env, evs, j, pruning), evs[j];
    IssuesIsStep1(env, s, e.now, e.op, cid);
    IssuesExactly(env, s, e.now, e.op);
    PrunedStore(Serve(env, s, e.now, e.op).0, e.now);
    hide Serve, ServerPublic, Pruned;
    c := StateAt(env, evs, j + 1, pruning).store.challenges[cid].challenge;
  }

  /** In particular nothing comes of a first step with a public value that is zero modulo N, whatever follows. */
  lemma ZeroPublicMintsNothing(env0: Env, H: Hash, N: nat, bytes: Name -> Bytes, hmac: Totp.Hmac, evs: seq<Event>,
                               pruning: bool, j: nat, i: nat)
    requires N > 0 && j < |evs| && evs[j].op.LoginStep1? && evs[j].op.A.Some? && evs[j].op.A.value % N == 0
    ensures !Backs(Real(env0, H, N, bytes, hmac), evs, j, i, pruning)
  {
    hide Serve, Verify, Scrambler, Evidence, ServerPublic, Pow, BE;
    var env := Real(env0, H, N, bytes, hmac);
    if Backs(env, evs, j, i, pruning) {
      var cid := evs[i].op.challengeId;
      var c := IssuedAtEvent(env0, H, N, bytes, hmac, evs, j, pruning, cid);
      ZeroPublicIsRejected(H, N, bytes(c.username), c.salt, c.A, c.B, c.verifier, c.b, evs[i].op.m1);
    }
  }

  // ---------- The code ----------

  // The code spells the truncated value of a step at most one from the step at this time, for the account's secret.
  ghost predicate CodeOfTheTime(hmac: Totp.Hmac, secret: string, code: string, now: int) {
    && Base32.ServerDecode(secret).Ok?
    && exists step :: now / 1000 / 30 - 1 <= step <= now / 1000 / 30 + 1
                      && Totp.IsCodeOf(hmac, Base32.ServerDecode(secret).value, code, step)
  }

  lemma AcceptedIsOfTheTime(hmac: Totp.Hmac, secret: string, code: string, now: int)
    ensures Totp.Verified(hmac, secret, code, 1, now) == Ok(true) <==> CodeOfTheTime(hmac, secret, code, now)
  {
    hide Totp.Verified, Totp.IsCodeOf, Base32.ServerDecode;
    Totp.AcceptedExactly(hmac, secret, code, 1, now);
  }

  /**
   * Every stored session of a time-based factor was opened by an event whose code was that of the time, for the secret
   * that the account had then.
   */
  lemma CodeSessionsRestOnTheTime(env0: Env, H: Hash, N: nat, bytes: Name -> Bytes, hmac: Totp.Hmac, evs: seq<Event>,
                                  n: nat, pruning: bool, sid: Id)
    returns (i: nat, u: Name)
    requires N > 0 && n <= |evs|
    requires
      var sessions := StateAt(Real(env0, H, N, bytes, hmac), evs, n, pruning).store.sessions;
      sid in sessions && sessions[sid].loginMethod == MfaTotp
    ensures i < n && evs[i].op.VerifyTotp? && evs[i].op.newSessionId == sid
    ensures
      var s := StateAt(Real(env0, H, N, bytes, hmac), evs, i, pruning);
      && evs[i].op.mfaToken in s.mfaSessions && s.mfaSessions[evs[i].op.mfaToken].username == u
      && u in s.store.users && s.store.users[u].totpEnabled && s.store.users[u].totpSecret.Some?
      && CodeOfTheTime(hmac, s.store.users[u].totpSecret.value, evs[i].op.code, evs[i].now)
  {
    hide Serve, Verify, Totp.Verified, CodeOfTheTime;
    var env := Real(env0, H, N, bytes, hmac);
    i := EveryFactorIsProved(env, evs, n, pruning, sid);
    var s := StateAt(env, evs, i, pruning);
    u := s.mfaSessions[evs[i].op.mfaToken].username;
    AcceptedIsOfTheTime(hmac, s.store.users[u].totpSecret.value, evs[i].op.code, evs[i].now);
  }
}
