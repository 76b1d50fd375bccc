/** The lockout: how many failed password proofs any run can record for one account. */
module AuthLockout {
  import opened Wrappers
  import opened AuthModel
  import opened BigEndian

  function Attempts(s: State, u: Name): int {
    if u in s.store.users then s.store.users[u].failedAttempts else 0
  }

  function LockedUntil(s: State, u: Name): Option<int> {
    if u in s.store.users then s.store.users[u].lockoutUntil else None
  }

  // The second step was about a live challenge of this existing account.
  predicate Concerns(s: State, now: int, op: Op, u: Name) {
    op.LoginStep2? && Live(s.store, op.challengeId, now)
    && s.store.challenges[op.challengeId].challenge.username == u && u in s.store.users
  }

  /** A failed verification recorded against the account. */
  predicate IsFailure(env: Env, s: State, now: int, op: Op, u: Name) {
    Concerns(s, now, op, u) && Serve(env, s, now, op).1 == Error(401, "Incorrect username or password")
  }

  /** A successful password proof. */
  predicate IsSuccess(env: Env, s: State, now: int, op: Op, u: Name) {
    Concerns(s, now, op, u) && (Serve(env, s, now, op).1.LoggedIn? || Serve(env, s, now, op).1.MfaRequired?)
  }

  // ---------- One step ----------

  ghost predicate SameCount(s: State, s': State, u: Name) {
    StaysKnown(s, s', u) && Attempts(s', u) == Attempts(s, u) && LockedUntil(s', u) == LockedUntil(s, u)
  }

  ghost predicate StaysKnown(s: State, s': State, u: Name) {
    u in s.store.users ==> u in s'.store.users
  }

  ghost predicate SecondStepEffect(env: Env, s: State, now: int, op: Op, s': State, u: Name) {
    StaysKnown(s, s', u) &&
    if IsFailure(env, s, now, op, u) then
      && !Locked(s.store, u, now)
      && Attempts(s', u) == Attempts(s, u) + 1
      && LockedUntil(s', u) == if Attempts(s', u) >= MAX_FAILURES then Some(now + LOCKOUT) else LockedUntil(s, u)
    else if IsSuccess(env, s, now, op, u) then Attempts(s', u) == 0 && LockedUntil(s', u) == None
    else SameCount(s, s', u)
  }

  lemma CheckedUsers(env: Env, d: Store, now: int, c: LoginChallenge, m1: Bytes, t: Id, sid: Id)
    ensures
      var (d', r) := Checked(env, d, now, c, m1, t, sid);
      var v := c.username;
      if v in d.users && r == Error(401, "Incorrect username or password") then
        !Locked(d, v, now) && d'.users == d.users[v := WithFailure(d.users[v], now)]
      else if v in d.users && (r.LoggedIn? || r.MfaRequired?) then
        d'.users == d.users[v := d.users[v].(failedAttempts := 0, lockoutUntil := None)]
      else d'.users == d.users
  {
    hide WithFailure, MakeToken, Locked;
  }

  lemma SecondStepUsers(env: Env, s: State, now: int, cid: Id, m1: Bytes, t: Id, sid: Id)
    ensures
      var (s', r) := SecondStep(env, s, now, cid, m1, t, sid);
      var users := s.store.users;
      if !Live(s.store, cid, now) then s'.store.users == users && r == Error(401, "Invalid or expired login session")
      else
        var v := s.store.challenges[cid].challenge.username;
        if v in users && r == Error(401, "Incorrect username or password") then
          !Locked(s.store, v, now) && s'.store.users == users[v := WithFailure(users[v], now)]
        else if v in users && (r.LoggedIn? || r.MfaRequired?) then
          s'.store.users == users[v := users[v].(failedAttempts := 0, lockoutUntil := None)]
        else s'.store.users == users
  {
    hide Checked, WithFailure;
    if Live(s.store, cid, now) {
      var d := s.store.(challenges := s.store.challenges - {cid});
      CheckedUsers(env, d, now, s.store.challenges[cid].challenge, m1, t, sid);
    }
  }

  lemma SecondStepCounts(env: Env, s: State, now: int, op: Op, u: Name)
    requires op.LoginStep2?
    ensures SecondStepEffect(env, s, now, op, Serve(env, s, now, op).0, u)
  {
    hide SecondStep;
    SecondStepUsers(env, s, now, op.challengeId, op.m1, op.newMfaToken, op.newSessionId);
  }

  // The account is there before exactly if it is there after, with the same counter and lock.
  ghost predicate SameAccount(d: Store, d': Store, u: Name) {
    && (u in d'.users <==> u in d.users)
    && (u in d.users ==> d'.users[u].failedAttempts == d.users[u].failedAttempts
                         && d'.users[u].lockoutUntil == d.users[u].lockoutUntil)
  }

  lemma TotpSetupCounts(env: Env, d: Store, now: int, v: Name, c: string, u: Name)
    ensures SameAccount(d, TotpGenerated(d, v, c).0, u) && SameAccount(d, TotpEnabled(env, d, now, v, c).0, u)
  {
  }

  lemma CredentialCounts(env: Env, d: Store, now: int, v: Name, r: Assertion, u: Name)
    ensures SameAccount(d, CredentialRegistered(env, d, now, v, r).0, u)
  {
  }

  lemma StoreOpCounts(env: Env, s: State, now: int, op: Op, u: Name)
    requires !op.LoginStep2? && !op.VerifyTotp? && !op.VerifyWebAuthnLogin? && !op.VerifyPasskeyLogin?
    ensures SameCount(s, Serve(env, s, now, op).0, u)
  {
    hide TotpGenerated, TotpEnabled, CredentialRegistered, Registered, FirstStep, SessionRevoked;
    var d := s.store;
    match op {
      case GenerateTotp(v, secret) => TotpSetupCounts(env, d, now, v, secret, u);
      case EnableTotp(v, code) => TotpSetupCounts(env, d, now, v, code, u);
      case VerifyWebAuthnRegister(v, r) => CredentialCounts(env, d, now, v, r, u);
      case Register(v, salt, x, id, sid) => RegisteredCounts(d, now, v, salt, x, id, sid, u);
      case _ =>
        hide Serve;
        OthersKeepUsers(env, s, now, op);
    }
  }

  lemma OthersKeepUsers(env: Env, s: State, now: int, op: Op)
    requires op.LoginStep1? || op.WebAuthnRegisterOptions? || op.WebAuthnLoginOptions? || op.PasskeyLoginOptions?
             || op.RevokeSession? || op.PruneOldChallenges?
    ensures Serve(env, s, now, op).0.store.users == s.store.users
  {
    hide HasPasskeys, OpenMfa, Locked;
  }

  lemma RegisteredCounts(d: Store, now: int, v: Name, salt: Bytes, x: Option<nat>, id: Id, sid: Id, u: Name)
    ensures
      var d' := Registered(d, now, v, salt, x, id, sid).0;
      && (u in d.users ==> SameAccount(d, d', u))
      && (u !in d.users && u in d'.users ==> d'.users[u].failedAttempts == 0 && d'.users[u].lockoutUntil == None)
  {
    hide MakeToken;
  }

  lemma AssertedCounts(env: Env, d: Store, now: int, v: Name, challenge: string, r: Assertion, how: Method, sid: Id,
                       u: Name)
    requires v in d.users && d.users[v].credentials.Some?
    ensures SameAccount(d, Asserted(env, d, now, v, challenge, r, how, sid).0, u)
  {
    hide MakeToken, FindCredential, WithSession;
    var k := FindCredential(d.users[v].credentials.value, r.id);
    if k != -1 {
      var checked := env.assertion(d.users[v].credentials.value[k], challenge, r);
      if checked.Some? {
        var d1 := WithUser(d, v, Recount(d.users[v], k, checked.value));
        SessionKeepsUsers(d1, v, how, sid);
      }
    }
  }

  lemma SessionKeepsUsers(d: Store, v: Name, how: Method, sid: Id)
    requires v in d.users
    ensures WithSession(d, v, how, sid).users == d.users
  {
  }

  lemma FactorCounts(env: Env, s: State, now: int, op: Op, u: Name)
    requires op.VerifyTotp? || op.VerifyWebAuthnLogin? || op.VerifyPasskeyLogin?
    ensures SameCount(s, Serve(env, s, now, op).0, u)
  {
    hide SecondStep, Asserted, FindCredential;
    var d := s.store;
    match op {
      case VerifyTotp(_, _, _) =>
      case VerifyWebAuthnLogin(t, r, sid) =>
        if OpenMfa(s, t, now) {
          var v := s.mfaSessions[t].username;
          if v in d.users && d.users[v].credentials.Some? && v in d.webauthnChallenges {
            AssertedCounts(env, d.(webauthnChallenges := d.webauthnChallenges - {v}), now, v,
                           d.webauthnChallenges[v].challenge, r, MfaWebAuthn, sid, u);
          }
        }
      case VerifyPasskeyLogin(c, r, owner, sid) =>
        forall v | v in d.users && d.users[v].credentials.Some?
          ensures SameAccount(d, Asserted(env, d, now, v, c, r, Passkey, sid).0, u)
        {
          AssertedCounts(env, d, now, v, c, r, Passkey, sid, u);
        }
    }
  }

  /** Nothing but the second step of a password login touches the counter and the lock. */
  lemma StepCounts(env: Env, s: State, now: int, op: Op, pruning: bool, u: Name)
    ensures SecondStepEffect(env, s, now, op, Step(env, s, now, op, pruning).0, u)
  {
    hide Serve, Locked;
    var s1 := Serve(env, s, now, op).0;
    if op.LoginStep2? {
      SecondStepCounts(env, s, now, op, u);
    } else if op.VerifyTotp? || op.VerifyWebAuthnLogin? || op.VerifyPasskeyLogin? {
      FactorCounts(env, s, now, op, u);
    } else {
      StoreOpCounts(env, s, now, op, u);
    }
    assert SameCount(s1, Step(env, s, now, op, pruning).0, u);
  }

  // ---------- Runs ----------

  // An account with five failures has a lock time.
  ghost predicate Counted(s: State, u: Name) {
    Attempts(s, u) >= 0 && (Attempts(s, u) >= MAX_FAILURES ==> LockedUntil(s, u).Some?)
  }

  lemma {:induction false} CountedAlways(env: Env, evs: seq<Event>, n: nat, pruning: bool, u: Name)
    requires n <= |evs|
    ensures Counted(StateAt(env, evs, n, pruning), u)
  {
    hide Serve, Step;
    if n > 0 {
      CountedAlways(env, evs, n - 1, pruning, u);
      StepCounts(env, StateAt(env, evs, n - 1, pruning), evs[n - 1].now, evs[n - 1].op, pruning, u);
    }
  }

  /** Accounts are never removed. */
  lemma {:induction false} KnownForEver(env: Env, evs: seq<Event>, m: nat, n: nat, pruning: bool, u: Name)
    requires m <= n <= |evs| && u in StateAt(env, evs, m, pruning).store.users
    ensures u in StateAt(env, evs, n, pruning).store.users
  {
    hide Serve, Step;
    if m < n {
      KnownForEver(env, evs, m, n - 1, pruning, u);
      StepCounts(env, StateAt(env, evs, n - 1, pruning), evs[n - 1].now, evs[n - 1].op, pruning, u);
    }
  }

  predicate FailsAt(env: Env, evs: seq<Event>, i: nat, pruning: bool, u: Name)
    requires i < |evs|
  {
    IsFailure(env, StateAt(env, evs, i, pruning), evs[i].now, evs[i].op, u)
  }

  predicate SucceedsAt(env: Env, evs: seq<Event>, i: nat, pruning: bool, u: Name)
    requires i < |evs|
  {
    IsSuccess(env, StateAt(env, evs, i, pruning), evs[i].now, evs[i].op, u)
  }

  ghost predicate NoSuccess(env: Env, evs: seq<Event>, m: nat, n: nat, pruning: bool, u: Name)
    requires n <= |evs|
  {
    forall i :: m <= i < n ==> !SucceedsAt(env, evs, i, pruning, u)
  }

  function Failures(env: Env, evs: seq<Event>, m: nat, n: nat, pruning: bool, u: Name): nat
    requires m <= n <= |evs|
    decreases n - m
  {
    if m == n then 0
    else (if FailsAt(env, evs, m, pruning, u) then 1 else 0) + Failures(env, evs, m + 1, n, pruning, u)
  }

  // How many failures can still be recorded between time t and time end.
  function Budget(attempts: int, lock: Option<int>, t: int, end: int): int
    requires attempts >= 0
  {
    if attempts < MAX_FAILURES then MAX_FAILURES - attempts + (if t <= end then (end - t) / LOCKOUT else 0)
    else if lock.None? then 0
    else
      var from := if lock.value > t then lock.value else t;
      if end < from then 0 else 1 + (end - from) / LOCKOUT
  }

  lemma FailureSpendsBudget(attempts: int, lock: Option<int>, t: int, t': int, end: int)
    requires attempts >= 0 && t <= t' <= end && (attempts >= MAX_FAILURES ==> lock.Some? && lock.value <= t)
    ensures var lock' := if attempts + 1 >= MAX_FAILURES then Some(t + LOCKOUT) else lock;
            1 + Budget(attempts + 1, lock', t', end) <= Budget(attempts, lock, t, end)
  {
    assert end - t >= LOCKOUT ==> (end - t) / LOCKOUT == 1 + (end - t - LOCKOUT) / LOCKOUT;
  }

  lemma BudgetShrinks(attempts: int, lock: Option<int>, t: int, t': int, end: int)
    requires attempts >= 0 && t <= t' <= end
    ensures 0 <= Budget(attempts, lock, t', end) <= Budget(attempts, lock, t, end)
  {
  }

  lemma {:induction false} FailuresWithinBudget(env: Env, evs: seq<Event>, m: nat, n: nat, pruning: bool, u: Name,
                                                end: int)
    requires Monotone(evs) && m < n <= |evs| && evs[n - 1].now <= end && NoSuccess(env, evs, m, n, pruning, u)
    ensures Attempts(StateAt(env, evs, m, pruning), u) >= 0
    ensures
      var s := StateAt(env, evs, m, pruning);
      Failures(env, evs, m, n, pruning, u) <= Budget(Attempts(s, u), LockedUntil(s, u), evs[m].now, end)
    decreases n - m
  {
    hide Serve, Step, Budget, Counted;
    var s, s' := StateAt(env, evs, m, pruning), StateAt(env, evs, m + 1, pruning);
    var e := evs[m];
    var t' := if m + 1 < n then evs[m + 1].now else end;
    CountedAlways(env, evs, m, pruning, u);
    CountedAlways(env, evs, m + 1, pruning, u);
    CountIsNatural(s, u);
    CountIsNatural(s', u);
    assert e.now <= evs[n - 1].now && t' <= end;
    assert !SucceedsAt(env, evs, m, pruning, u);
    var rest := Failures(env, evs, m + 1, n, pruning, u);
    assert rest <= Budget(Attempts(s', u), LockedUntil(s', u), t', end) by {
      if m + 1 < n {
        FailuresWithinBudget(env, evs, m + 1, n, pruning, u, end);
      } else {
        BudgetShrinks(Attempts(s', u), LockedUntil(s', u), end, end, end);
      }
    }
    StepSpendsBudget(env, s, e.now, e.op, pruning, u, t', end, FailsAt(env, evs, m, pruning, u));
  }

  lemma CountIsNatural(s: State, u: Name)
    requires Counted(s, u)
    ensures Attempts(s, u) >= 0
  {
  }

  lemma StepSpendsBudget(env: Env, s: State, now: int, op: Op, pruning: bool, u: Name, t': int, end: int, fails: bool)
    requires now <= t' <= end && Counted(s, u) && !IsSuccess(env, s, now, op, u)
             && fails == IsFailure(env, s, now, op, u)
    ensures
      var s' := Step(env, s, now, op, pruning).0;
      && Attempts(s, u) >= 0 && Attempts(s', u) >= 0
      && (if fails then 1 else 0) + Budget(Attempts(s', u), LockedUntil(s', u), t', end)
         <= Budget(Attempts(s, u), LockedUntil(s, u), now, end)
  {
    StepCounts(env, s, now, op, pruning, u);
    hide Serve, Step, Budget;
    if fails {
      FailureSpendsBudget(Attempts(s, u), LockedUntil(s, u), now, t', end);
    } else {
      BudgetShrinks(Attempts(s, u), LockedUntil(s, u), now, t', end);
    }
  }

  /**
   * In any stretch of any run without a successful login of the account, the failures recorded for it number at
   * most five plus one for each quarter of an hour that the stretch lasts.
   */
  lemma FailuresAreLimited(env: Env, evs: seq<Event>, m: nat, n: nat, pruning: bool, u: Name)
    requires Monotone(evs) && m < n <= |evs| && NoSuccess(env, evs, m, n, pruning, u)
    ensures Failures(env, evs, m, n, pruning, u) <= MAX_FAILURES + (evs[n - 1].now - evs[m].now) / LOCKOUT
  {
    hide StateAt, Failures, NoSuccess;
    FailuresWithinBudget(env, evs, m, n, pruning, u, evs[n - 1].now);
  }

  // From the fifth failure on, the lock lasts until a quarter of an hour after the latest one.
  lemma {:induction false} LockHolds(env: Env, evs: seq<Event>, i: nat, k: nat, pruning: bool, u: Name)
    requires Monotone(evs) && i < k <= |evs| && FailsAt(env, evs, i, pruning, u)
             && NoSuccess(env, evs, i, k, pruning, u)
    requires Attempts(StateAt(env, evs, i + 1, pruning), u) >= MAX_FAILURES
    ensures
      var s := StateAt(env, evs, k, pruning);
      Attempts(s, u) >= MAX_FAILURES && LockedUntil(s, u).Some? && LockedUntil(s, u).value >= evs[i].now + LOCKOUT
  {
    hide Serve, Step;
    var s := StateAt(env, evs, k - 1, pruning);
    StepCounts(env, s, evs[k - 1].now, evs[k - 1].op, pruning, u);
    if i < k - 1 {
      LockHolds(env, evs, i, k - 1, pruning, u);
      assert !SucceedsAt(env, evs, k - 1, pruning, u);
    }
  }

  /** Two failures of a locked-out account are at least a quarter of an hour apart. */
  lemma LockedFailuresAreApart(env: Env, evs: seq<Event>, i: nat, k: nat, pruning: bool, u: Name)
    requires Monotone(evs) && i < k < |evs| && NoSuccess(env, evs, i, k, pruning, u)
    requires FailsAt(env, evs, i, pruning, u) && FailsAt(env, evs, k, pruning, u)
    requires Attempts(StateAt(env, evs, i + 1, pruning), u) >= MAX_FAILURES
    ensures evs[k].now >= evs[i].now + LOCKOUT
  {
    LockHolds(env, evs, i, k, pruning, u);
    StepCounts(env, StateAt(env, evs, k, pruning), evs[k].now, evs[k].op, pruning, u);
    hide Serve, Step;
  }

  /** Without a success in between, the stored counter grows by exactly the failures there were. */
  lemma {:induction false} CounterCounts(env: Env, evs: seq<Event>, m: nat, n: nat, pruning: bool, u: Name)
    requires m <= n <= |evs| && NoSuccess(env, evs, m, n, pruning, u)
    ensures Attempts(StateAt(env, evs, n, pruning), u)
            == Attempts(StateAt(env, evs, m, pruning), u) + Failures(env, evs, m, n, pruning, u)
    decreases n - m
  {
    hide Serve, Step;
    if m < n {
      assert !SucceedsAt(env, evs, m, pruning, u);
      StepCounts(env, StateAt(env, evs, m, pruning), evs[m].now, evs[m].op, pruning, u);
      CounterCounts(env, evs, m + 1, n, pruning, u);
    }
  }

  /** From the fifth failure of a stretch without a success on, two failures are at least a quarter of an hour apart. */
  lemma FailuresAreApart(env: Env, evs: seq<Event>, m: nat, i: nat, k: nat, pruning: bool, u: Name)
    requires Monotone(evs) && m <= i < k < |evs| && NoSuccess(env, evs, m, k, pruning, u)
    requires FailsAt(env, evs, i, pruning, u) && FailsAt(env, evs, k, pruning, u)
    requires Failures(env, evs, m, i + 1, pruning, u) >= MAX_FAILURES
    ensures evs[k].now >= evs[i].now + LOCKOUT
  {
    hide Failures, FailsAt, SucceedsAt, StateAt;
    CountedAlways(env, evs, m, pruning, u);
    CounterCounts(env, evs, m, i + 1, pruning, u);
    LockedFailuresAreApart(env, evs, i, k, pruning, u);
  }
}
