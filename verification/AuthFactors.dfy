/**
 * What a second factor or a passkey has to show: a code or an assertion that the check accepted, for the account's own
 * secret or credential. The service grants a session exactly then, and over every run each stored one rests on it.
 */
module AuthFactors {
  import opened Wrappers
  import opened JavaScript
  import opened BigEndian
  import opened AuthModel
  import opened AuthProvenance

  // ---------- What is accepted ----------

  predicate CodeAccepted(env: Env, d: Store, now: int, u: Name, code: string) {
    && u in d.users && d.users[u].totpEnabled
    && d.users[u].totpSecret.Some? && d.users[u].totpSecret.value != ""
    && env.totp(d.users[u].totpSecret.value, code, now) == Ok(true)
  }

  // The k-th credential of the account is the first of that id, and its assertion over the challenge is accepted.
  predicate AcceptedBy(env: Env, d: Store, u: Name, challenge: string, response: Assertion, k: nat) {
    && u in d.users && d.users[u].credentials.Some? && k < |d.users[u].credentials.value|
    && d.users[u].credentials.value[k].id == response.id
    && (forall i :: 0 <= i < k ==> d.users[u].credentials.value[i].id != response.id)
    && env.assertion(d.users[u].credentials.value[k], challenge, response).Some?
  }

  ghost predicate AssertionAccepted(env: Env, d: Store, u: Name, challenge: string, response: Assertion) {
    exists k: nat :: AcceptedBy(env, d, u, challenge, response, k)
  }

  // A token that is at most five minutes old.
  predicate FreshToken(s: State, t: Id, now: int) {
    t in s.mfaSessions && now <= s.mfaSessions[t].createdAt + 300_000
  }

  /** The time-based code that the operation brings is right. */
  predicate RightCode(env: Env, s: State, now: int, op: Op) {
    op.VerifyTotp? && FreshToken(s, op.mfaToken, now)
    && CodeAccepted(env, s.store, now, s.mfaSessions[op.mfaToken].username, op.code)
  }

  // The token's account uses security keys and has an open challenge.
  predicate FactorIsOpen(s: State, now: int, t: Id) {
    FreshToken(s, t, now)
    && var u := s.mfaSessions[t].username;
    && u in s.store.users && s.store.users[u].webauthnEnabled && s.store.users[u].credentials.Some?
    && u in s.store.webauthnChallenges && now <= s.store.webauthnChallenges[u].createdAt + 300_000
  }

  predicate PasskeyIsOpen(s: State, now: int, challenge: string) {
    challenge != "" && challenge in s.passkeyChallenges && now <= s.passkeyChallenges[challenge].createdAt + 300_000
  }

  /** The assertion that the operation brings is right, over the account's challenge of at most five minutes ago. */
  ghost predicate RightAssertion(env: Env, s: State, now: int, op: Op) {
    op.VerifyWebAuthnLogin? && FactorIsOpen(s, now, op.mfaToken)
    && var u := s.mfaSessions[op.mfaToken].username;
    AssertionAccepted(env, s.store, u, s.store.webauthnChallenges[u].challenge, op.response)
  }

  // The account of a passkey login: the one that the challenge was made for, or else the owner of the credential.
  function PasskeyAccount(s: State, op: Op): Option<Name>
    requires op.VerifyPasskeyLogin? && op.challenge in s.passkeyChallenges
  {
    match s.passkeyChallenges[op.challenge].username
    case Some(u) => Some(u)
    case None => op.owner
  }

  /** The passkey's assertion is right, over a challenge that the service made at most five minutes ago. */
  ghost predicate RightPasskey(env: Env, s: State, now: int, op: Op) {
    op.VerifyPasskeyLogin? && PasskeyIsOpen(s, now, op.challenge)
    && PasskeyAccount(s, op).Some?
    && AssertionAccepted(env, s.store, PasskeyAccount(s, op).value, op.challenge, op.response)
  }

  // ---------- One step ----------

  // The session and token of a grant to the account.
  ghost predicate GrantedTo(d: Store, u: Name, how: Method, sid: Id, now: int, d': Store, r: Response) {
    && r.Granted? && u in d.users
    && r.token == Token(d.users[u].id, u, sid, now / 1000, now / 1000 + 86_400)
    && d'.sessions == d.sessions[sid := Session(d.users[u].id, u, how, false)]
  }

  // The account's k-th credential gets the counter that the check of its assertion gave.
  function Moved(env: Env, user: User, challenge: string, response: Assertion, k: nat): User
    requires user.credentials.Some? && k < |user.credentials.value|
    requires env.assertion(user.credentials.value[k], challenge, response).Some?
  {
    var cred := user.credentials.value[k];
    var moved := cred.(counter := env.assertion(cred, challenge, response).value);
    user.(credentials := Some(user.credentials.value[k := moved]))
  }

  // The credential that made the assertion moves on, and no account changes otherwise.
  ghost predicate CounterMoved(env: Env, d: Store, u: Name, challenge: string, response: Assertion, d': Store) {
    exists k: nat :: AcceptedBy(env, d, u, challenge, response, k)
                     && d'.users == d.users[u := Moved(env, d.users[u], challenge, response, k)]
  }

  lemma FirstIsFound(env: Env, d: Store, u: Name, challenge: string, r: Assertion)
    requires u in d.users && d.users[u].credentials.Some?
    ensures
      var creds := d.users[u].credentials.value;
      var k := FindCredential(creds, r.id);
      && (AssertionAccepted(env, d, u, challenge, r) <==> k >= 0 && env.assertion(creds[k], challenge, r).Some?)
      && (AssertionAccepted(env, d, u, challenge, r) ==> AcceptedBy(env, d, u, challenge, r, k))
  {
    var k := FindCredential(d.users[u].credentials.value, r.id);
    if j: nat :| AcceptedBy(env, d, u, challenge, r, j) {
      assert k == j;
    }
    if k >= 0 && env.assertion(d.users[u].credentials.value[k], challenge, r).Some? {
      assert AcceptedBy(env, d, u, challenge, r, k);
    }
  }

  lemma AssertedExactly(env: Env, d: Store, now: int, u: Name, challenge: string, r: Assertion, how: Method, sid: Id)
    requires u in d.users && d.users[u].credentials.Some?
    ensures
      var (d', resp) := Asserted(env, d, now, u, challenge, r, how, sid);
      if AssertionAccepted(env, d, u, challenge, r) then
        && GrantedTo(d, u, how, sid, now, d', resp) && CounterMoved(env, d, u, challenge, r, d')
        && d' == d.(users := d'.users, sessions := d'.sessions)
      else resp.Error? && d' == d
  {
    FirstIsFound(env, d, u, challenge, r);
    hide AcceptedBy, AssertionAccepted, FindCredential;
    if AssertionAccepted(env, d, u, challenge, r) {
      var k := FindCredential(d.users[u].credentials.value, r.id);
      assert Recount(d.users[u], k, env.assertion(d.users[u].credentials.value[k], challenge, r).value)
             == Moved(env, d.users[u], challenge, r, k);
    }
  }

  /**
   * The time-based factor: a session exactly for a right code, which uses up the token; a wrong one changes nothing at
   * all, so the token stays.
   */
  lemma CodeGrantsExactly(env: Env, s: State, now: int, op: Op)
    requires op.VerifyTotp?
    ensures
      var (s', r) := Serve(env, s, now, op);
      if RightCode(env, s, now, op) then
        && GrantedTo(s.store, s.mfaSessions[op.mfaToken].username, MfaTotp, op.newSessionId, now, s'.store, r)
        && s' == State(s.store.(sessions := s'.store.sessions), s.mfaSessions - {op.mfaToken}, s.passkeyChallenges)
      else r.Error? && s' == s
  {
  }

  /**
   * The security-key factor: a session exactly for a right assertion, which uses up the token and moves the counter; an
   * open challenge is used up either way, and nothing else changes on a failure.
   */
  lemma AssertionGrantsExactly(env: Env, s: State, now: int, op: Op)
    requires op.VerifyWebAuthnLogin?
    ensures
      var (s', r) := Serve(env, s, now, op);
      if RightAssertion(env, s, now, op) then
        var u := s.mfaSessions[op.mfaToken].username;
        && GrantedTo(s.store, u, MfaWebAuthn, op.newSessionId, now, s'.store, r)
        && CounterMoved(env, s.store, u, s.store.webauthnChallenges[u].challenge, op.response, s'.store)
        && s'.mfaSessions == s.mfaSessions - {op.mfaToken} && s'.passkeyChallenges == s.passkeyChallenges
        && s'.store.webauthnChallenges == s.store.webauthnChallenges - {u}
        && s'.store.challenges == s.store.challenges && s'.store.denylist == s.store.denylist
      else
        && r.Error?
        && s' == if FactorIsOpen(s, now, op.mfaToken)
                 then s.(store := s.store.(webauthnChallenges :=
                           s.store.webauthnChallenges - {s.mfaSessions[op.mfaToken].username}))
                 else s
  {
    hide Asserted, AssertionAccepted;
    if FactorIsOpen(s, now, op.mfaToken) {
      var d, u := s.store, s.mfaSessions[op.mfaToken].username;
      var d1 := d.(webauthnChallenges := d.webauthnChallenges - {u});
      var challenge := d.webauthnChallenges[u].challenge;
      AssertedExactly(env, d1, now, u, challenge, op.response, MfaWebAuthn, op.newSessionId);
      SameAcceptance(env, d1, d, u, challenge, op.response);
    }
  }

  // Acceptance depends on the accounts alone.
  lemma SameAcceptance(env: Env, d: Store, d': Store, u: Name, challenge: string, r: Assertion)
    requires d.users == d'.users
    ensures forall k: nat :: AcceptedBy(env, d, u, challenge, r, k) <==> AcceptedBy(env, d', u, challenge, r, k)
    ensures AssertionAccepted(env, d, u, challenge, r) <==> AssertionAccepted(env, d', u, challenge, r)
  {
    forall k: nat ensures AcceptedBy(env, d, u, challenge, r, k) <==> AcceptedBy(env, d', u, challenge, r, k) {
    }
  }

  lemma NoCredentials(env: Env, d: Store, u: Name, r: Assertion)
    ensures u !in d.users || d.users[u].credentials.None? ==>
              forall challenge :: !AssertionAccepted(env, d, u, challenge, r)
  {
  }

  /**
   * Passkeys: a session exactly for a right assertion of the account that the challenge was made for, or of the
   * credential's owner; an open challenge is used up either way, and nothing else changes on a failure.
   */
  lemma PasskeyGrantsExactly(env: Env, s: State, now: int, op: Op)
    requires op.VerifyPasskeyLogin?
    ensures
      var (s', r) := Serve(env, s, now, op);
      if RightPasskey(env, s, now, op) then
        var u := PasskeyAccount(s, op).value;
        && GrantedTo(s.store, u, Passkey, op.newSessionId, now, s'.store, r)
        && CounterMoved(env, s.store, u, op.challenge, op.response, s'.store)
        && s'.store == s.store.(users := s'.store.users, sessions := s'.store.sessions)
        && s'.mfaSessions == s.mfaSessions && s'.passkeyChallenges == s.passkeyChallenges - {op.challenge}
      else
        && r.Error?
        && s' == if PasskeyIsOpen(s, now, op.challenge)
                 then s.(passkeyChallenges := s.passkeyChallenges - {op.challenge}) else s
  {
    hide Asserted, AssertionAccepted, AcceptedBy, OwnsCredential, GrantedTo, CounterMoved;
    if op.challenge in s.passkeyChallenges && PasskeyAccount(s, op).Some? {
      var u := PasskeyAccount(s, op).value;
      NoCredentials(env, s.store, u, op.response);
      if u in s.store.users && s.store.users[u].credentials.Some? {
        AssertedExactly(env, s.store, now, u, op.challenge, op.response, Passkey, op.newSessionId);
        OwnerHasIt(env, s.store, u, op.challenge, op.response);
      }
    }
  }

  lemma OwnerHasIt(env: Env, d: Store, u: Name, challenge: string, r: Assertion)
    ensures AssertionAccepted(env, d, u, challenge, r) ==> OwnsCredential(d, u, r.id)
  {
    if k: nat :| AcceptedBy(env, d, u, challenge, r, k) {
      assert d.users[u].credentials.value[k].id == r.id;
    }
  }

  // ---------- Over whole runs ----------

  // Event i brought a right code or assertion for a session of this kind.
  ghost predicate ProvedAt(env: Env, evs: seq<Event>, i: nat, pruning: bool, how: Method) {
    && i < |evs|
    && var s := StateAt(env, evs, i, pruning);
    match how
    case MfaTotp => RightCode(env, s, evs[i].now, evs[i].op)
    case MfaWebAuthn => RightAssertion(env, s, evs[i].now, evs[i].op)
    case Passkey => RightPasskey(env, s, evs[i].now, evs[i].op)
    case _ => false
  }

  /**
   * Every stored session of a second factor or a passkey was opened, under its id, by an event that brought a right
   * code for the account's secret or a right assertion of the account's credential over the challenge that was open.
   */
  lemma EveryFactorIsProved(env: Env, evs: seq<Event>, n: nat, pruning: bool, sid: Id) returns (i: nat)
    requires n <= |evs| && sid in StateAt(env, evs, n, pruning).store.sessions
    requires StateAt(env, evs, n, pruning).store.sessions[sid].loginMethod in {MfaTotp, MfaWebAuthn, Passkey}
    ensures
      var how := StateAt(env, evs, n, pruning).store.sessions[sid].loginMethod;
      i < n && Opens(evs[i].op, ResponseAt(env, evs, i, pruning), sid, how) && ProvedAt(env, evs, i, pruning, how)
  {
    i := SessionOrigin(env, evs, n, pruning, sid);
    hide Serve, RightCode, RightAssertion, RightPasskey;
    var s := StateAt(env, evs, i, pruning);
    match evs[i].op {
      case VerifyTotp(_, _, _) => CodeGrantsExactly(env, s, evs[i].now, evs[i].op);
      case VerifyWebAuthnLogin(_, _, _) => AssertionGrantsExactly(env, s, evs[i].now, evs[i].op);
      case VerifyPasskeyLogin(_, _, _, _) => PasskeyGrantsExactly(env, s, evs[i].now, evs[i].op);
      case _ =>
    }
  }
}
