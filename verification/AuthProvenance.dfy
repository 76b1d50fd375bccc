/**
 * Where sessions come from: each rests on its own single-use challenge, and on its own second factor where one is on.
 */
module AuthProvenance {
  import opened Wrappers
  import opened BigEndian
  import opened AuthModel

  // ---------- One step ----------

  // A check that either fails without a trace or opens one session, whose token it hands out.
  ghost predicate OpensOne(d: Store, x: (Store, Response), how: Method, sid: Id, now: int) {
    && x.0.challenges == d.challenges && x.0.denylist == d.denylist
    && (x.1.Granted? || (x.1.Error? && x.0.sessions == d.sessions))
    && (x.1.Granted? ==>
          var t := x.1.token;
          && t.jti == sid && t.iat == now / 1000 && t.exp == t.iat + TOKEN_LIFETIME_SECONDS
          && x.0.sessions == d.sessions[sid := Session(t.sub, t.username, how, false)])
  }

  lemma AssertedOpensOne(env: Env, d: Store, now: int, v: Name, challenge: string, r: Assertion, how: Method, sid: Id)
    requires v in d.users && d.users[v].credentials.Some?
    ensures var x := Asserted(env, d, now, v, challenge, r, how, sid);
            OpensOne(d, x, how, sid, now) && (x.1.Granted? ==> x.1.token.username == v)
  {
    hide FindCredential, SessionFor, Recount;
    var k := FindCredential(d.users[v].credentials.value, r.id);
    if k != -1 {
      var checked := env.assertion(d.users[v].credentials.value[k], challenge, r);
      if checked.Some? {
        SessionForOpensOne(WithUser(d, v, Recount(d.users[v], k, checked.value)), now, v, how, sid);
      }
    }
  }

  lemma SessionForOpensOne(d: Store, now: int, v: Name, how: Method, sid: Id)
    requires v in d.users
    ensures var x := SessionFor(d, now, v, how, sid);
            OpensOne(d, x, how, sid, now) && x.1.Granted? && x.1.token.username == v
  {
  }

  lemma TotpOpensOne(env: Env, d: Store, now: int, u: Name, code: string, sid: Id)
    ensures var x := TotpFactor(env, d, now, u, code, sid);
            OpensOne(d, x, MfaTotp, sid, now) && (x.1.Granted? ==> x.1.token.username == u)
  {
  }

  lemma WebAuthnOpensOne(env: Env, d: Store, now: int, u: Name, r: Assertion, sid: Id)
    ensures var x := WebAuthnFactor(env, d, now, u, r, sid);
            OpensOne(d, x, MfaWebAuthn, sid, now) && (x.1.Granted? ==> x.1.token.username == u)
  {
    hide Asserted;
    if u in d.users && d.users[u].credentials.Some? && u in d.webauthnChallenges {
      AssertedOpensOne(env, d.(webauthnChallenges := d.webauthnChallenges - {u}), now, u,
                       d.webauthnChallenges[u].challenge, r, MfaWebAuthn, sid);
    }
  }

  lemma PasskeyOpensOne(env: Env, d: Store, now: int, named: Option<Name>, c: string, r: Assertion, owner: Option<Name>,
                        sid: Id)
    ensures OpensOne(d, PasskeyChecked(env, d, now, named, c, r, owner, sid), Passkey, sid, now)
  {
    hide Asserted, OwnsCredential;
    var u := if named.Some? then named
             else if owner.Some? && OwnsCredential(d, owner.value, r.id) then owner else None;
    if u.Some? && u.value in d.users && d.users[u.value].credentials.Some? {
      AssertedOpensOne(env, d, now, u.value, c, r, Passkey, sid);
    }
  }

  lemma RegisteredOpensOne(d: Store, now: int, u: Name, salt: Bytes, v: Option<nat>, id: Id, sid: Id)
    ensures OpensOne(d, Registered(d, now, u, salt, v, id, sid), Registration, sid, now)
  {
  }

  // A change that leaves sessions, challenges and denylist alone, and grants nothing.
  ghost predicate Quiet(d: Store, x: (Store, Response)) {
    x.0.challenges == d.challenges && x.0.sessions == d.sessions && x.0.denylist == d.denylist && !x.1.Granted?
  }

  lemma TotpSetupQuiet(env: Env, d: Store, now: int, u: Name, c: string)
    ensures Quiet(d, TotpGenerated(d, u, c)) && Quiet(d, TotpEnabled(env, d, now, u, c))
  {
  }

  lemma WebAuthnSetupQuiet(env: Env, d: Store, now: int, u: Name, c: string, r: Assertion)
    ensures Quiet(d, RegisterOptions(d, now, u, c)) && Quiet(d, FactorOptions(d, now, u, c))
    ensures Quiet(d, CredentialRegistered(env, d, now, u, r))
  {
    hide WithCredential;
  }

  lemma SmallOpsQuiet(env: Env, s: State, now: int, op: Op)
    requires GrantKind(op).None? && !op.LoginStep1? && !op.LoginStep2? && !op.RevokeSession?
    ensures var (s', r) := Serve(env, s, now, op); Quiet(s.store, (s'.store, r))
  {
    hide TotpGenerated, TotpEnabled, RegisterOptions, FactorOptions, CredentialRegistered, HasPasskeys;
    hide SecondStep, TotpVerified, WebAuthnVerified, PasskeyVerified;
    var d, none := s.store, Assertion("", "");
    match op {
      case GenerateTotp(u, secret) => TotpSetupQuiet(env, d, now, u, secret);
      case EnableTotp(u, code) => TotpSetupQuiet(env, d, now, u, code);
      case WebAuthnRegisterOptions(u, c) => WebAuthnSetupQuiet(env, d, now, u, c, none);
      case VerifyWebAuthnRegister(u, r) => WebAuthnSetupQuiet(env, d, now, u, "", r);
      case WebAuthnLoginOptions(t, c) =>
        if t in s.mfaSessions {
          WebAuthnSetupQuiet(env, d, now, s.mfaSessions[t].username, c, none);
        }
      case _ =>
    }
  }

  // The kind of session that the operation may open by granting a token.
  function GrantKind(op: Op): Option<Method> {
    match op
    case Register(_, _, _, _, _) => Some(Registration)
    case VerifyTotp(_, _, _) => Some(MfaTotp)
    case VerifyWebAuthnLogin(_, _, _) => Some(MfaWebAuthn)
    case VerifyPasskeyLogin(_, _, _, _) => Some(Passkey)
    case _ => None
  }

  lemma GrantOpsOpenOne(env: Env, s: State, now: int, op: Op)
    requires GrantKind(op).Some?
    ensures var (s', r) := Serve(env, s, now, op);
            OpensOne(s.store, (s'.store, r), GrantKind(op).value, op.newSessionId, now)
  {
    hide Registered, TotpFactor, WebAuthnFactor, PasskeyChecked;
    match op {
      case Register(u, salt, v, id, sid) => RegisteredOpensOne(s.store, now, u, salt, v, id, sid);
      case VerifyTotp(t, code, sid) =>
        if t in s.mfaSessions {
          TotpOpensOne(env, s.store, now, s.mfaSessions[t].username, code, sid);
        }
      case VerifyWebAuthnLogin(t, r, sid) =>
        if t in s.mfaSessions {
          WebAuthnOpensOne(env, s.store, now, s.mfaSessions[t].username, r, sid);
        }
      case VerifyPasskeyLogin(c, r, owner, sid) =>
        if c in s.passkeyChallenges {
          PasskeyOpensOne(env, s.store, now, s.passkeyChallenges[c].username, c, r, owner, sid);
        }
    }
  }

  lemma FirstStepKeeps(env: Env, d: Store, now: int, u: Name, A: Option<nat>, random: Bytes, cid: Id)
    ensures
      var (d', r) := FirstStep(env, d, now, u, A, random, cid);
      d'.sessions == d.sessions && d'.denylist == d.denylist && (r.Error? || r.ChallengeIssued?)
  {
    hide Locked;
  }

  lemma RevocationEffect(d: Store, now: int, id: Id, jti: Option<Id>, sid: Id)
    ensures
      var (d', r) := SessionRevoked(d, now, id, jti, sid);
      && d'.challenges == d.challenges && d'.sessions.Keys == d.sessions.Keys && (r.Error? || r.Success?)
      && (forall x :: x in d.sessions ==> d'.sessions[x].loginMethod == d.sessions[x].loginMethod)
      && d'.denylist == (if r.Success? then d.denylist[sid := now + DENYLIST_TTL] else d.denylist)
      && (r.Success? ==> sid in d.sessions)
  {
  }

  /** The expiring store of login challenges is touched by the two login steps only. */
  lemma OthersKeepChallenges(env: Env, s: State, now: int, op: Op)
    requires !op.LoginStep1? && !op.LoginStep2?
    ensures Serve(env, s, now, op).0.store.challenges == s.store.challenges
  {
    if GrantKind(op).Some? {
      GrantOpsOpenOne(env, s, now, op);
      hide Serve;
    } else if op.RevokeSession? {
      RevocationEffect(s.store, now, op.userId, op.currentJti, op.sessionId);
      hide SessionRevoked, FirstStep, SecondStep, TotpVerified, WebAuthnVerified, PasskeyVerified;
    } else {
      SmallOpsQuiet(env, s, now, op);
      hide Serve;
    }
  }

  // The operation puts a challenge under this id.
  predicate Issues(env: Env, s: State, now: int, op: Op, cid: Id) {
    op.LoginStep1? && op.challengeId == cid && Serve(env, s, now, op).1.ChallengeIssued?
  }

  predicate Takes(op: Op, cid: Id) {
    op.LoginStep2? && op.challengeId == cid
  }

  lemma CheckedKeeps(env: Env, d: Store, now: int, c: LoginChallenge, m1: Bytes, t: Id, sid: Id)
    ensures
      var (d', r) := Checked(env, d, now, c, m1, t, sid);
      && d'.challenges == d.challenges && d'.denylist == d.denylist
      && (r.LoggedIn? || r.MfaRequired? ==>
          env.srp(c, m1).Accepted? && c.username in d.users && !Locked(d, c.username, now))
      && (r.LoggedIn? ==> !d.users[c.username].totpEnabled && !d.users[c.username].webauthnEnabled
                          && r.token.username == c.username && r.token.jti == sid && r.token.iat == now / 1000)
      && (r.MfaRequired? ==>
          r.mfaToken == t && (d.users[c.username].totpEnabled || d.users[c.username].webauthnEnabled))
      && (r.Error? || r.LoggedIn? || r.MfaRequired?)
      && d'.sessions == if r.LoggedIn? then d.sessions[sid := Session(d.users[c.username].id, c.username, Srp6a, false)]
                        else d.sessions
  {
    hide Locked, PasswordAccepted, PasswordRejected;
    RejectedKeeps(d, now, c.username);
    if env.srp(c, m1).Accepted? && c.username in d.users {
      AcceptedKeeps(d, now, c.username, env.srp(c, m1).serverEvidence, t, sid);
    }
  }

  lemma RejectedKeeps(d: Store, now: int, u: Name)
    ensures
      var (d', r) := PasswordRejected(d, now, u);
      d'.challenges == d.challenges && d'.denylist == d.denylist && d'.sessions == d.sessions && r.Error?
  {
    hide WithFailure;
  }

  lemma AcceptedKeeps(d: Store, now: int, u: Name, evidence: Bytes, t: Id, sid: Id)
    requires u in d.users
    ensures
      var (d', r) := PasswordAccepted(d, now, u, evidence, t, sid);
      var user := d.users[u];
      && d'.challenges == d.challenges && d'.denylist == d.denylist
      && (r.MfaRequired? <==> user.totpEnabled || user.webauthnEnabled)
      && (if r.MfaRequired? then r.mfaToken == t && d'.sessions == d.sessions
          else r.LoggedIn? && r.token.username == u && r.token.jti == sid && r.token.iat == now / 1000
               && d'.sessions == d.sessions[sid := Session(user.id, u, Srp6a, false)])
  {
  }

  // A stored challenge is either just issued, or the same as before and not taken.
  lemma ChallengeStep(env: Env, s: State, now: int, op: Op, pruning: bool, cid: Id)
    requires cid in Step(env, s, now, op, pruning).0.store.challenges
    ensures
      var entry := Step(env, s, now, op, pruning).0.store.challenges[cid];
      if Issues(env, s, now, op, cid)
      then entry.expiresAt == now + CHALLENGE_TTL && entry.challenge.username == op.username
          && entry.challenge.createdAt == now
      else cid in s.store.challenges && entry == s.store.challenges[cid] && !Takes(op, cid)
  {
    hide Pruned, Checked;
    if op.LoginStep2? {
      hide FirstStep;
      if Live(s.store, op.challengeId, now) {
        var d := s.store.(challenges := s.store.challenges - {op.challengeId});
        CheckedKeeps(env, d, now, s.store.challenges[op.challengeId].challenge, op.m1, op.newMfaToken, op.newSessionId);
      }
      PrunedStore(Serve(env, s, now, op).0, now);
    } else if op.LoginStep1? {
      hide SecondStep, Locked;
      PrunedStore(Serve(env, s, now, op).0, now);
    } else {
      hide Serve;
      OthersKeepChallenges(env, s, now, op);
      PrunedStore(Serve(env, s, now, op).0, now);
    }
  }

  lemma FirstStepLeaves(env: Env, d: Store, now: int, u: Name, A: Option<nat>, random: Bytes, cid: Id, other: Id)
    requires other in d.challenges
    ensures
      var (d', r) := FirstStep(env, d, now, u, A, random, cid);
      other != cid || !r.ChallengeIssued? ==> other in d'.challenges && d'.challenges[other] == d.challenges[other]
  {
    hide Locked;
  }

  lemma SecondStepLeaves(env: Env, s: State, now: int, cid: Id, m1: Bytes, t: Id, sid: Id)
    ensures SecondStep(env, s, now, cid, m1, t, sid).0.store.challenges == s.store.challenges - {cid}
  {
    hide Checked;
    if Live(s.store, cid, now) {
      var d := s.store.(challenges := s.store.challenges - {cid});
      CheckedKeeps(env, d, now, s.store.challenges[cid].challenge, m1, t, sid);
    }
  }

  // The other way round: a stored challenge that is neither taken nor issued anew stays as it is.
  lemma ChallengeStays(env: Env, s: State, now: int, op: Op, pruning: bool, cid: Id)
    requires cid in s.store.challenges && !Takes(op, cid) && !Issues(env, s, now, op, cid)
    ensures
      var challenges := Step(env, s, now, op, pruning).0.store.challenges;
      cid in challenges && challenges[cid] == s.store.challenges[cid]
  {
    hide Pruned, FirstStep, SecondStep;
    PrunedStore(Serve(env, s, now, op).0, now);
    match op {
      case LoginStep1(u, A, random, id) => FirstStepLeaves(env, s.store, now, u, A, random, id, cid);
      case LoginStep2(id, m1, t, sid) => SecondStepLeaves(env, s, now, id, m1, t, sid);
      case _ =>
        hide Serve;
        OthersKeepChallenges(env, s, now, op);
    }
  }

  lemma PrunedStore(s: State, now: int)
    ensures Pruned(s, now).store == s.store
    ensures forall t :: t in Pruned(s, now).mfaSessions ==>
            t in s.mfaSessions && Pruned(s, now).mfaSessions[t] == s.mfaSessions[t]
  {
  }

  // ---------- The password proof behind a session or token ----------

  /** The second step that hands out a session or a second-factor token. */
  predicate Mints(env: Env, evs: seq<Event>, i: nat, pruning: bool) {
    i < |evs| && evs[i].op.LoginStep2?
    && (ResponseAt(env, evs, i, pruning).LoggedIn? || ResponseAt(env, evs, i, pruning).MfaRequired?)
  }

  predicate IssuedAt(env: Env, evs: seq<Event>, j: nat, pruning: bool, cid: Id) {
    j < |evs| && Issues(env, StateAt(env, evs, j, pruning), evs[j].now, evs[j].op, cid)
  }

  predicate TakenAt(evs: seq<Event>, k: nat, cid: Id) {
    k < |evs| && Takes(evs[k].op, cid)
  }

  // Event j issued the challenge that is stored under the id before event n, and nothing has replaced or taken it.
  ghost predicate Standing(env: Env, evs: seq<Event>, j: nat, n: nat, pruning: bool, cid: Id)
    requires n <= |evs|
  {
    && j < n && IssuedAt(env, evs, j, pruning, cid)
    && cid in StateAt(env, evs, n, pruning).store.challenges
    && cid in StateAt(env, evs, j + 1, pruning).store.challenges
    && StateAt(env, evs, n, pruning).store.challenges[cid] == StateAt(env, evs, j + 1, pruning).store.challenges[cid]
    && StateAt(env, evs, n, pruning).store.challenges[cid].expiresAt == evs[j].now + CHALLENGE_TTL
    && StateAt(env, evs, n, pruning).store.challenges[cid].challenge.username == evs[j].op.username
    && forall k :: j < k < n ==> !TakenAt(evs, k, cid) && !IssuedAt(env, evs, k, pruning, cid)
  }

  lemma {:induction false} ChallengeOrigin(env: Env, evs: seq<Event>, n: nat, pruning: bool, cid: Id) returns (j: nat)
    requires n <= |evs| && cid in StateAt(env, evs, n, pruning).store.challenges
    ensures Standing(env, evs, j, n, pruning, cid)
  {
    hide Step, Serve;
    var i := n - 1;
    ChallengeStep(env, StateAt(env, evs, i, pruning), evs[i].now, evs[i].op, pruning, cid);
    if IssuedAt(env, evs, i, pruning, cid) {
      j := i;
      IssuesIsStep1(env, StateAt(env, evs, i, pruning), evs[i].now, evs[i].op, cid);
    } else {
      j := ChallengeOrigin(env, evs, i, pruning, cid);
    }
  }

  /** ... and a challenge that was issued, and not taken or issued anew since, is there. */
  lemma {:induction false} ChallengeStands(env: Env, evs: seq<Event>, j: nat, n: nat, pruning: bool, cid: Id)
    requires j < n <= |evs| && IssuedAt(env, evs, j, pruning, cid)
    requires forall k :: j < k < n ==> !TakenAt(evs, k, cid) && !IssuedAt(env, evs, k, pruning, cid)
    ensures Standing(env, evs, j, n, pruning, cid)
  {
    var i := n - 1;
    var s := StateAt(env, evs, i, pruning);
    if i == j {
      JustIssued(env, s, evs[j].now, evs[j].op, pruning, cid);
    } else {
      ChallengeStands(env, evs, j, i, pruning, cid);
      assert !TakenAt(evs, i, cid) && !IssuedAt(env, evs, i, pruning, cid);
      hide Step, Serve, Takes;
      ChallengeStays(env, s, evs[i].now, evs[i].op, pruning, cid);
    }
  }

  lemma JustIssued(env: Env, s: State, now: int, op: Op, pruning: bool, cid: Id)
    requires Issues(env, s, now, op, cid)
    ensures
      var challenges := Step(env, s, now, op, pruning).0.store.challenges;
      && cid in challenges && challenges[cid].expiresAt == now + CHALLENGE_TTL
      && op.LoginStep1? && challenges[cid].challenge.username == op.username
  {
    hide Locked, Pruned;
    PrunedStore(Serve(env, s, now, op).0, now);
  }

  lemma IssuesIsStep1(env: Env, s: State, now: int, op: Op, cid: Id)
    requires Issues(env, s, now, op, cid)
    ensures op.LoginStep1?
  {
  }

  /**
   * Event j issued the challenge behind the mint i: within five minutes, taken by nobody in between, and proved
   * by the client.
   */
  ghost predicate Backs(env: Env, evs: seq<Event>, j: nat, i: nat, pruning: bool) {
    && i < |evs| && Mints(env, evs, i, pruning)
    && var cid := evs[i].op.challengeId;
    && Standing(env, evs, j, i, pruning, cid)
    && evs[i].now < evs[j].now + CHALLENGE_TTL
    && env.srp(StateAt(env, evs, j + 1, pruning).store.challenges[cid].challenge, evs[i].op.m1).Accepted?
  }

  lemma SecondStepMints(env: Env, s: State, now: int, cid: Id, m1: Bytes, t: Id, sid: Id)
    ensures
      var (s', r) := SecondStep(env, s, now, cid, m1, t, sid);
      r.LoggedIn? || r.MfaRequired? ==>
        && Live(s.store, cid, now)
        && var c := s.store.challenges[cid].challenge;
        && env.srp(c, m1).Accepted? && c.username in s.store.users
        && var user := s.store.users[c.username];
        && (r.LoggedIn? ==> !user.totpEnabled && !user.webauthnEnabled)
        && (r.MfaRequired? ==> r.mfaToken == t && (user.totpEnabled || user.webauthnEnabled))
  {
    hide Checked;
    if Live(s.store, cid, now) {
      CheckedKeeps(env, s.store.(challenges := s.store.challenges - {cid}), now, s.store.challenges[cid].challenge, m1,
                   t, sid);
    }
  }

  /** Every session or token from a password login has its challenge. */
  lemma EveryMintIsBacked(env: Env, evs: seq<Event>, i: nat, pruning: bool) returns (j: nat)
    requires Mints(env, evs, i, pruning)
    ensures Backs(env, evs, j, i, pruning)
  {
    var s, op := StateAt(env, evs, i, pruning), evs[i].op;
    SecondStepMints(env, s, evs[i].now, op.challengeId, op.m1, op.newMfaToken, op.newSessionId);
    hide SecondStep;
    j := ChallengeOrigin(env, evs, i, pruning, op.challengeId);
  }

  /** ... of its own: no challenge backs two. */
  lemma BackingIsExclusive(env: Env, evs: seq<Event>, j: nat, i: nat, i': nat, pruning: bool)
    requires Backs(env, evs, j, i, pruning) && Backs(env, evs, j, i', pruning)
    ensures i == i'
  {
    hide Step, Serve;
    SameChallenge(env, evs, j, i, pruning);
    SameChallenge(env, evs, j, i', pruning);
    assert TakenAt(evs, i, evs[i].op.challengeId) && TakenAt(evs, i', evs[i'].op.challengeId);
  }

  lemma SameChallenge(env: Env, evs: seq<Event>, j: nat, i: nat, pruning: bool)
    requires Backs(env, evs, j, i, pruning)
    ensures evs[j].op.LoginStep1? && evs[j].op.challengeId == evs[i].op.challengeId
  {
  }

  /** An account with a second factor never gets a session straight from the password proof. */
  lemma SecondFactorStandsBefore(env: Env, evs: seq<Event>, i: nat, pruning: bool)
    requires Mints(env, evs, i, pruning)
    ensures
      var s := StateAt(env, evs, i, pruning);
      var cid := evs[i].op.challengeId;
      && cid in s.store.challenges && s.store.challenges[cid].challenge.username in s.store.users
      && var user := s.store.users[s.store.challenges[cid].challenge.username];
      (ResponseAt(env, evs, i, pruning).MfaRequired? <==> user.totpEnabled || user.webauthnEnabled)
  {
    var s, op := StateAt(env, evs, i, pruning), evs[i].op;
    SecondStepMints(env, s, evs[i].now, op.challengeId, op.m1, op.newMfaToken, op.newSessionId);
    hide SecondStep;
  }

  // ---------- The second factor behind a session ----------

  // The operation checks a factor for this token.
  predicate AsksFactor(op: Op, t: Id) {
    (op.VerifyTotp? || op.VerifyWebAuthnLogin?) && op.mfaToken == t
  }

  predicate UsesToken(env: Env, s: State, now: int, op: Op, t: Id) {
    AsksFactor(op, t) && Serve(env, s, now, op).1.Granted?
  }

  predicate MintsToken(env: Env, s: State, now: int, op: Op, t: Id) {
    op.LoginStep2? && Serve(env, s, now, op).1.MfaRequired? && Serve(env, s, now, op).1.mfaToken == t
  }

  // A stored token is either just minted, or the same as before and not used.
  lemma TokenStep(env: Env, s: State, now: int, op: Op, pruning: bool, t: Id)
    requires t in Step(env, s, now, op, pruning).0.mfaSessions
    ensures
      var m := Step(env, s, now, op, pruning).0.mfaSessions[t];
      if MintsToken(env, s, now, op, t)
      then m.createdAt == now && Live(s.store, op.challengeId, now)
          && m.username == s.store.challenges[op.challengeId].challenge.username
      else t in s.mfaSessions && m == s.mfaSessions[t] && !UsesToken(env, s, now, op, t)
  {
    hide Pruned, Checked, FirstStep, Registered, TotpGenerated, TotpEnabled, RegisterOptions, CredentialRegistered;
    hide TotpFactor, WebAuthnFactor, FactorOptions, PasskeyChecked, SessionRevoked;
    PrunedStore(Serve(env, s, now, op).0, now);
    if op.LoginStep2? && Live(s.store, op.challengeId, now) {
      CheckedKeeps(env, s.store.(challenges := s.store.challenges - {op.challengeId}), now,
                   s.store.challenges[op.challengeId].challenge, op.m1, op.newMfaToken, op.newSessionId);
    }
  }

  // The other way round: a token that is not stale, and neither used nor minted anew, stays as it is.
  lemma TokenStays(env: Env, s: State, now: int, op: Op, pruning: bool, t: Id)
    requires t in s.mfaSessions && !Stale(s.mfaSessions[t].createdAt, now)
    requires !UsesToken(env, s, now, op, t) && !MintsToken(env, s, now, op, t)
    ensures
      var tokens := Step(env, s, now, op, pruning).0.mfaSessions;
      t in tokens && tokens[t] == s.mfaSessions[t]
  {
    hide Checked, FirstStep, Registered, TotpGenerated, TotpEnabled, RegisterOptions, CredentialRegistered;
    hide TotpFactor, WebAuthnFactor, FactorOptions, PasskeyChecked, SessionRevoked;
    if op.LoginStep2? && Live(s.store, op.challengeId, now) {
      CheckedKeeps(env, s.store.(challenges := s.store.challenges - {op.challengeId}), now,
                   s.store.challenges[op.challengeId].challenge, op.m1, op.newMfaToken, op.newSessionId);
    }
  }

  predicate TokenMintedAt(env: Env, evs: seq<Event>, j: nat, pruning: bool, t: Id) {
    j < |evs| && MintsToken(env, StateAt(env, evs, j, pruning), evs[j].now, evs[j].op, t)
  }

  predicate TokenUsedAt(env: Env, evs: seq<Event>, i: nat, pruning: bool, t: Id) {
    i < |evs| && UsesToken(env, StateAt(env, evs, i, pruning), evs[i].now, evs[i].op, t)
  }

  // The account of the challenge that event j took.
  ghost function AccountAt(env: Env, evs: seq<Event>, j: nat, pruning: bool): Name
    requires j < |evs| && evs[j].op.LoginStep2?
  {
    var cs := StateAt(env, evs, j, pruning).store.challenges;
    if evs[j].op.challengeId in cs then cs[evs[j].op.challengeId].challenge.username else ""
  }

  // Event j minted the token stored before event n, and nothing has replaced or used it.
  ghost predicate Held(env: Env, evs: seq<Event>, j: nat, n: nat, pruning: bool, t: Id)
    requires n <= |evs|
  {
    && j < n && evs[j].op.LoginStep2? && TokenMintedAt(env, evs, j, pruning, t)
    && t in StateAt(env, evs, n, pruning).mfaSessions
    && StateAt(env, evs, n, pruning).mfaSessions[t] == MfaSession(AccountAt(env, evs, j, pruning), evs[j].now)
    && forall k :: j < k < n ==> !TokenUsedAt(env, evs, k, pruning, t) && !TokenMintedAt(env, evs, k, pruning, t)
  }

  lemma {:induction false} TokenOrigin(env: Env, evs: seq<Event>, n: nat, pruning: bool, t: Id) returns (j: nat)
    requires n <= |evs| && t in StateAt(env, evs, n, pruning).mfaSessions
    ensures Held(env, evs, j, n, pruning, t)
  {
    hide Step, Serve;
    var i := n - 1;
    TokenStep(env, StateAt(env, evs, i, pruning), evs[i].now, evs[i].op, pruning, t);
    if TokenMintedAt(env, evs, i, pruning, t) {
      j := i;
    } else {
      j := TokenOrigin(env, evs, i, pruning, t);
    }
  }

  /** ... and a token that was minted at most five minutes ago, and not used or minted anew since, is there. */
  lemma {:induction false} TokenStands(env: Env, evs: seq<Event>, j: nat, n: nat, pruning: bool, t: Id)
    requires Monotone(evs) && j < n < |evs| && TokenMintedAt(env, evs, j, pruning, t)
             && evs[n].now <= evs[j].now + FIVE_MINUTES
    requires forall k :: j < k < n ==> !TokenUsedAt(env, evs, k, pruning, t) && !TokenMintedAt(env, evs, k, pruning, t)
    ensures Held(env, evs, j, n, pruning, t)
  {
    var i := n - 1;
    var s := StateAt(env, evs, i, pruning);
    if i == j {
      JustMinted(env, s, evs[j].now, evs[j].op, pruning, t);
    } else {
      TokenStands(env, evs, j, i, pruning, t);
      assert !TokenUsedAt(env, evs, i, pruning, t) && !TokenMintedAt(env, evs, i, pruning, t);
      hide Step, Serve;
      TokenStays(env, s, evs[i].now, evs[i].op, pruning, t);
    }
  }

  lemma JustMinted(env: Env, s: State, now: int, op: Op, pruning: bool, t: Id)
    requires MintsToken(env, s, now, op, t)
    ensures
      var tokens := Step(env, s, now, op, pruning).0.mfaSessions;
      && op.LoginStep2? && op.challengeId in s.store.challenges
      && t in tokens && tokens[t] == MfaSession(s.store.challenges[op.challengeId].challenge.username, now)
  {
    hide Checked;
    if Live(s.store, op.challengeId, now) {
      CheckedKeeps(env, s.store.(challenges := s.store.challenges - {op.challengeId}), now,
                   s.store.challenges[op.challengeId].challenge, op.m1, op.newMfaToken, op.newSessionId);
    }
  }

  lemma UseNeedsOpenToken(env: Env, s: State, now: int, op: Op, t: Id)
    requires UsesToken(env, s, now, op, t)
    ensures OpenMfa(s, t, now) && Serve(env, s, now, op).1.token.username == s.mfaSessions[t].username
  {
    hide TotpFactor, WebAuthnFactor;
    if t in s.mfaSessions {
      var u := s.mfaSessions[t].username;
      if op.VerifyTotp? {
        TotpOpensOne(env, s.store, now, u, op.code, op.newSessionId);
      } else {
        WebAuthnOpensOne(env, s.store, now, u, op.response, op.newSessionId);
      }
    }
  }

  /**
   * The factor passed at event i used up the token that the password login at event j minted, for the same
   * account and at most five minutes before; nobody used it in between.
   */
  ghost predicate FactorBacks(env: Env, evs: seq<Event>, j: nat, i: nat, pruning: bool, t: Id) {
    && i < |evs| && TokenUsedAt(env, evs, i, pruning, t)
    && Held(env, evs, j, i, pruning, t)
    && evs[i].now <= evs[j].now + FIVE_MINUTES
    && ResponseAt(env, evs, i, pruning).Granted?
    && ResponseAt(env, evs, i, pruning).token.username == AccountAt(env, evs, j, pruning)
  }

  lemma EveryFactorIsBacked(env: Env, evs: seq<Event>, i: nat, pruning: bool, t: Id) returns (j: nat)
    requires TokenUsedAt(env, evs, i, pruning, t)
    ensures FactorBacks(env, evs, j, i, pruning, t)
    ensures Mints(env, evs, j, pruning)
  {
    hide Serve;
    UseNeedsOpenToken(env, StateAt(env, evs, i, pruning), evs[i].now, evs[i].op, t);
    j := TokenOrigin(env, evs, i, pruning, t);
  }

  /** No token passes a second factor twice. */
  lemma FactorIsExclusive(env: Env, evs: seq<Event>, j: nat, i: nat, i': nat, pruning: bool, t: Id, t': Id)
    requires FactorBacks(env, evs, j, i, pruning, t) && FactorBacks(env, evs, j, i', pruning, t')
    ensures i == i'
  {
    assert t == t';
  }

  // ---------- Stored sessions ----------

  /** The operation opens a session of this kind under this id. */
  predicate Opens(op: Op, r: Response, sid: Id, how: Method) {
    match how
    case Registration => op.Register? && op.newSessionId == sid && r.Granted?
    case Srp6a => op.LoginStep2? && op.newSessionId == sid && r.LoggedIn?
    case MfaTotp => op.VerifyTotp? && op.newSessionId == sid && r.Granted?
    case MfaWebAuthn => op.VerifyWebAuthnLogin? && op.newSessionId == sid && r.Granted?
    case Passkey => op.VerifyPasskeyLogin? && op.newSessionId == sid && r.Granted?
  }

  lemma SessionStep(env: Env, s: State, now: int, op: Op, sid: Id)
    requires sid in Serve(env, s, now, op).0.store.sessions
    ensures
      var (s', r) := Serve(env, s, now, op);
      var how := s'.store.sessions[sid].loginMethod;
      Opens(op, r, sid, how) || (sid in s.store.sessions && s.store.sessions[sid].loginMethod == how)
  {
    if op.LoginStep1? || op.LoginStep2? || op.RevokeSession? {
      hide Opens;
      StoreStepOnSession(env, s, now, op, sid);
    } else {
      hide Serve;
      if GrantKind(op).Some? {
        GrantOpsOpenOne(env, s, now, op);
      } else {
        SmallOpsQuiet(env, s, now, op);
      }
    }
  }

  lemma StoreStepOnSession(env: Env, s: State, now: int, op: Op, sid: Id)
    requires op.LoginStep1? || op.LoginStep2? || op.RevokeSession?
    requires sid in Serve(env, s, now, op).0.store.sessions
    ensures
      var (s', r) := Serve(env, s, now, op);
      var how := s'.store.sessions[sid].loginMethod;
      Opens(op, r, sid, how) || (sid in s.store.sessions && s.store.sessions[sid].loginMethod == how)
  {
    hide FirstStep, SecondStep, SessionRevoked;
    match op {
      case LoginStep1(u, A, random, cid) => FirstStepKeeps(env, s.store, now, u, A, random, cid);
      case LoginStep2(cid, m1, t, id) => SecondStepSessions(env, s, now, cid, m1, t, id);
      case RevokeSession(id, jti, revoked) => RevocationEffect(s.store, now, id, jti, revoked);
    }
  }

  lemma SecondStepSessions(env: Env, s: State, now: int, cid: Id, m1: Bytes, t: Id, sid: Id)
    ensures
      var (s', r) := SecondStep(env, s, now, cid, m1, t, sid);
      && (!r.LoggedIn? ==> s'.store.sessions == s.store.sessions)
      && (r.LoggedIn? ==>
            && sid in s'.store.sessions && s'.store.sessions[sid].loginMethod == Srp6a
            && s'.store.sessions == s.store.sessions[sid := s'.store.sessions[sid]])
  {
    hide Checked;
    if Live(s.store, cid, now) {
      var d := s.store.(challenges := s.store.challenges - {cid});
      CheckedKeeps(env, d, now, s.store.challenges[cid].challenge, m1, t, sid);
    }
  }

  lemma {:induction false} SessionOrigin(env: Env, evs: seq<Event>, n: nat, pruning: bool, sid: Id) returns (i: nat)
    requires n <= |evs| && sid in StateAt(env, evs, n, pruning).store.sessions
    ensures i < n
    ensures Opens(evs[i].op, ResponseAt(env, evs, i, pruning), sid,
                  StateAt(env, evs, n, pruning).store.sessions[sid].loginMethod)
  {
    hide Serve, Opens;
    var k := n - 1;
    var s := StateAt(env, evs, k, pruning);
    PrunedStore(Serve(env, s, evs[k].now, evs[k].op).0, evs[k].now);
    SessionStep(env, s, evs[k].now, evs[k].op, sid);
    if sid in s.store.sessions
       && s.store.sessions[sid].loginMethod == StateAt(env, evs, n, pruning).store.sessions[sid].loginMethod {
      i := SessionOrigin(env, evs, k, pruning, sid);
    } else {
      i := k;
    }
  }

  /** Event i opened the session straight from the proof of the challenge that event j issued. */
  ghost predicate ByPassword(env: Env, evs: seq<Event>, j: nat, i: nat, n: nat, pruning: bool, sid: Id) {
    && j < i < n <= |evs| && Backs(env, evs, j, i, pruning)
    && Opens(evs[i].op, ResponseAt(env, evs, i, pruning), sid, Srp6a)
  }

  /**
   * Event i opened the session by a second factor, using up the token that event k minted, which in turn came from
   * the proof of the challenge that event j issued.
   */
  ghost predicate ByFactor(env: Env, evs: seq<Event>, j: nat, k: nat, i: nat, n: nat, pruning: bool, sid: Id,
                           how: Method)
  {
    && j < k < i < n <= |evs| && Backs(env, evs, j, k, pruning)
    && (evs[i].op.VerifyTotp? || evs[i].op.VerifyWebAuthnLogin?)
    && FactorBacks(env, evs, k, i, pruning, evs[i].op.mfaToken)
    && Opens(evs[i].op, ResponseAt(env, evs, i, pruning), sid, how)
  }

  /** Every stored session of these kinds has such a history, ending in the event that opened it. */
  lemma EverySessionIsEarned(env: Env, evs: seq<Event>, n: nat, pruning: bool, sid: Id)
    requires n <= |evs| && sid in StateAt(env, evs, n, pruning).store.sessions
    ensures
      var how := StateAt(env, evs, n, pruning).store.sessions[sid].loginMethod;
      && (how == Srp6a ==> exists j: nat, i: nat :: ByPassword(env, evs, j, i, n, pruning, sid))
      && (how in {MfaTotp, MfaWebAuthn} ==>
            exists j: nat, k: nat, i: nat :: ByFactor(env, evs, j, k, i, n, pruning, sid, how))
  {
    hide Serve, Step;
    var how := StateAt(env, evs, n, pruning).store.sessions[sid].loginMethod;
    var i := SessionOrigin(env, evs, n, pruning, sid);
    if how == Srp6a {
      assert Mints(env, evs, i, pruning);
      var j := EveryMintIsBacked(env, evs, i, pruning);
      assert ByPassword(env, evs, j, i, n, pruning, sid);
    } else if how == MfaTotp || how == MfaWebAuthn {
      var t := evs[i].op.mfaToken;
      GrantedUses(env, evs, i, pruning, t);
      var k := EveryFactorIsBacked(env, evs, i, pruning, t);
      var j := EveryMintIsBacked(env, evs, k, pruning);
      assert ByFactor(env, evs, j, k, i, n, pruning, sid, how);
    }
  }

  // The session's history starts from the challenge that event j issued.
  ghost predicate RestsOnChallenge(env: Env, evs: seq<Event>, j: nat, n: nat, pruning: bool, sid: Id) {
    || (exists i: nat :: ByPassword(env, evs, j, i, n, pruning, sid))
    || (exists k: nat, i: nat, how :: ByFactor(env, evs, j, k, i, n, pruning, sid, how))
  }

  // The session's history goes through the token that event k minted.
  ghost predicate RestsOnToken(env: Env, evs: seq<Event>, k: nat, n: nat, pruning: bool, sid: Id) {
    exists j: nat, i: nat, how :: ByFactor(env, evs, j, k, i, n, pruning, sid, how)
  }

  /** No two sessions rest on one challenge, whether opened by the password alone or by a second factor ... */
  lemma ChallengesAreNotShared(env: Env, evs: seq<Event>, j: nat, n: nat, pruning: bool, sid: Id, sid': Id)
    ensures RestsOnChallenge(env, evs, j, n, pruning, sid) && RestsOnChallenge(env, evs, j, n, pruning, sid') ==>
            sid == sid'
  {
    hide Backs, FactorBacks, Serve, Step, RestsOnChallenge;
    if RestsOnChallenge(env, evs, j, n, pruning, sid) && RestsOnChallenge(env, evs, j, n, pruning, sid') {
      var m, i, byFactor := MintOf(env, evs, j, n, pruning, sid);
      var m', i', byFactor' := MintOf(env, evs, j, n, pruning, sid');
      BackingIsExclusive(env, evs, j, m, m', pruning);
      if byFactor {
        FactorIsExclusive(env, evs, m, i, i', pruning, evs[i].op.mfaToken, evs[i'].op.mfaToken);
      }
    }
  }

  /** ... or on one token. */
  lemma TokensAreNotShared(env: Env, evs: seq<Event>, k: nat, n: nat, pruning: bool, sid: Id, sid': Id)
    ensures RestsOnToken(env, evs, k, n, pruning, sid) && RestsOnToken(env, evs, k, n, pruning, sid') ==> sid == sid'
  {
    hide Backs, FactorBacks, Serve, Step;
    if RestsOnToken(env, evs, k, n, pruning, sid) && RestsOnToken(env, evs, k, n, pruning, sid') {
      var j: nat, i: nat, how :| ByFactor(env, evs, j, k, i, n, pruning, sid, how);
      var j': nat, i': nat, how' :| ByFactor(env, evs, j', k, i', n, pruning, sid', how');
      FactorIsExclusive(env, evs, k, i, i', pruning, evs[i].op.mfaToken, evs[i'].op.mfaToken);
    }
  }

  // The event that the challenge backs, the event that opened the session, and whether a factor came in between.
  lemma MintOf(env: Env, evs: seq<Event>, j: nat, n: nat, pruning: bool, sid: Id)
    returns (m: nat, i: nat, byFactor: bool)
    requires RestsOnChallenge(env, evs, j, n, pruning, sid)
    ensures i < n <= |evs| && Backs(env, evs, j, m, pruning) && NewSession(evs[i].op) == Some(sid)
    ensures byFactor <==> ResponseAt(env, evs, m, pruning).MfaRequired?
    ensures if byFactor
            then (evs[i].op.VerifyTotp? || evs[i].op.VerifyWebAuthnLogin?)
                 && FactorBacks(env, evs, m, i, pruning, evs[i].op.mfaToken)
            else m == i
  {
    hide Backs, FactorBacks, Serve, Step;
    if i0: nat :| ByPassword(env, evs, j, i0, n, pruning, sid) {
      m, i, byFactor := i0, i0, false;
    } else {
      var k: nat, i1: nat, how :| ByFactor(env, evs, j, k, i1, n, pruning, sid, how);
      m, i, byFactor := k, i1, true;
      MintedNoSession(env, evs, k, i1, pruning, evs[i1].op.mfaToken);
    }
  }

  function NewSession(op: Op): Option<Id> {
    if op.Register? || op.LoginStep2? || op.VerifyTotp? || op.VerifyWebAuthnLogin? || op.VerifyPasskeyLogin?
    then Some(op.newSessionId) else None
  }

  lemma MintedNoSession(env: Env, evs: seq<Event>, k: nat, i: nat, pruning: bool, t: Id)
    requires FactorBacks(env, evs, k, i, pruning, t)
    ensures ResponseAt(env, evs, k, pruning).MfaRequired?
  {
    hide Serve;
  }

  lemma GrantedUses(env: Env, evs: seq<Event>, i: nat, pruning: bool, t: Id)
    requires i < |evs| && AsksFactor(evs[i].op, t) && ResponseAt(env, evs, i, pruning).Granted?
    ensures TokenUsedAt(env, evs, i, pruning, t)
  {
  }
}
