/** Throwing away stale entries is invisible to every caller. */
module AuthPruning {
  import opened Wrappers
  import opened JavaScript
  import opened AuthModel
  import opened BigEndian

  type MfaTable = map<Id, MfaSession>
  type PasskeyTable = map<string, PasskeyChallenge>

  // A table with some entries missing, all of which were stale by the time on the clock.
  ghost predicate MfaThinned(full: MfaTable, thin: MfaTable, clock: int) {
    forall t :: (t in thin ==> t in full && full[t] == thin[t])
                && (t in full && t !in thin ==> Stale(full[t].createdAt, clock))
  }

  ghost predicate PasskeysThinned(full: PasskeyTable, thin: PasskeyTable, clock: int) {
    forall c :: (c in thin ==> c in full && full[c] == thin[c])
                && (c in full && c !in thin ==> Stale(full[c].createdAt, clock))
  }

  // p is s with both tables thinned.
  ghost predicate Simulates(s: State, p: State, clock: int) {
    && p.store == s.store
    && MfaThinned(s.mfaSessions, p.mfaSessions, clock)
    && PasskeysThinned(s.passkeyChallenges, p.passkeyChallenges, clock)
  }

  // The full state's answer x and the thinned state's answer y.
  ghost predicate Alike(x: (State, Response), y: (State, Response), now: int) {
    x.1 == y.1 && Simulates(x.0, y.0, now)
  }

  lemma SimulatesLater(s: State, p: State, clock: int, now: int)
    requires Simulates(s, p, clock) && clock <= now
    ensures Simulates(s, p, now)
  {
  }

  lemma SameMfa(s: State, p: State, now: int, t: Id, entry: MfaSession)
    requires Simulates(s, p, now)
    ensures OpenMfa(s, t, now) <==> OpenMfa(p, t, now)
    ensures OpenMfa(s, t, now) ==> t in s.mfaSessions && t in p.mfaSessions && s.mfaSessions[t] == p.mfaSessions[t]
    ensures MfaThinned(s.mfaSessions - {t}, p.mfaSessions - {t}, now)
    ensures MfaThinned(s.mfaSessions[t := entry], p.mfaSessions[t := entry], now)
  {
  }

  lemma SamePasskey(s: State, p: State, now: int, c: string, entry: PasskeyChallenge)
    requires Simulates(s, p, now)
    ensures OpenPasskey(s, c, now) <==> OpenPasskey(p, c, now)
    ensures OpenPasskey(s, c, now) ==>
              c in s.passkeyChallenges && c in p.passkeyChallenges && s.passkeyChallenges[c] == p.passkeyChallenges[c]
    ensures PasskeysThinned(s.passkeyChallenges - {c}, p.passkeyChallenges - {c}, now)
    ensures PasskeysThinned(s.passkeyChallenges[c := entry], p.passkeyChallenges[c := entry], now)
  {
  }

  lemma SecondStepAlike(env: Env, s: State, p: State, now: int, cid: Id, m1: Bytes, t: Id, sid: Id)
    requires Simulates(s, p, now)
    ensures Alike(SecondStep(env, s, now, cid, m1, t, sid), SecondStep(env, p, now, cid, m1, t, sid), now)
  {
    hide Checked, MfaThinned, PasskeysThinned;
    var u := if cid in s.store.challenges then s.store.challenges[cid].challenge.username else "";
    SameMfa(s, p, now, t, MfaSession(u, now));
  }

  lemma FactorAlike(env: Env, s: State, p: State, now: int, t: Id, code: string, r: Assertion, sid: Id)
    requires Simulates(s, p, now)
    ensures Alike(TotpVerified(env, s, now, t, code, sid), TotpVerified(env, p, now, t, code, sid), now)
    ensures Alike(WebAuthnVerified(env, s, now, t, r, sid), WebAuthnVerified(env, p, now, t, r, sid), now)
  {
    hide TotpFactor, WebAuthnFactor, OpenMfa, MfaThinned, PasskeysThinned;
    SameMfa(s, p, now, t, MfaSession("", now));
  }

  lemma LoginOptionsAlike(s: State, p: State, now: int, t: Id, c: string)
    requires Simulates(s, p, now)
    ensures Alike(LoginOptions(s, now, t, c), LoginOptions(p, now, t, c), now)
  {
    hide FactorOptions, OpenMfa, MfaThinned, PasskeysThinned;
    SameMfa(s, p, now, t, MfaSession("", now));
  }

  lemma PasskeyAlike(env: Env, s: State, p: State, now: int, a: Option<Name>, c: string, r: Assertion,
                     owner: Option<Name>, sid: Id)
    requires Simulates(s, p, now)
    ensures Alike(PasskeyOptions(s, now, a, c), PasskeyOptions(p, now, a, c), now)
    ensures Alike(PasskeyVerified(env, s, now, c, r, owner, sid), PasskeyVerified(env, p, now, c, r, owner, sid), now)
  {
    hide HasPasskeys, PasskeyChecked, OpenPasskey, MfaThinned, PasskeysThinned;
    SamePasskey(s, p, now, c, PasskeyChallenge(if Truthy(a) then a else None, now));
  }

  lemma ServeSimulates(env: Env, s: State, p: State, clock: int, now: int, op: Op)
    requires Simulates(s, p, clock) && clock <= now
    ensures Alike(Serve(env, s, now, op), Serve(env, p, now, op), now)
  {
    hide Registered, FirstStep, SecondStep, TotpGenerated, TotpEnabled, TotpVerified;
    hide RegisterOptions, CredentialRegistered;
    hide LoginOptions, WebAuthnVerified, PasskeyOptions, PasskeyVerified, SessionRevoked, MfaThinned, PasskeysThinned;
    SimulatesLater(s, p, clock, now);
    match op {
      case LoginStep2(cid, m1, t, sid) => SecondStepAlike(env, s, p, now, cid, m1, t, sid);
      case VerifyTotp(t, code, sid) => FactorAlike(env, s, p, now, t, code, Assertion("", ""), sid);
      case WebAuthnLoginOptions(t, c) => LoginOptionsAlike(s, p, now, t, c);
      case VerifyWebAuthnLogin(t, r, sid) => FactorAlike(env, s, p, now, t, "", r, sid);
      case PasskeyLoginOptions(a, c) => PasskeyAlike(env, s, p, now, a, c, Assertion("", ""), None, "");
      case VerifyPasskeyLogin(c, r, owner, sid) => PasskeyAlike(env, s, p, now, None, c, r, owner, sid);
      case _ =>
    }
  }

  lemma PruningSimulates(s: State, p: State, now: int)
    requires Simulates(s, p, now)
    ensures Simulates(s, Pruned(p, now), now)
  {
  }

  /**
   * With a clock that never goes back, a service that prunes, in its own operations and at any further points of
   * the run, answers every call exactly like one that never prunes.
   */
  lemma {:induction false} PruningIsInvisible(env: Env, evs: seq<Event>, n: nat)
    requires Monotone(evs) && n <= |evs|
    ensures n > 0 ==> Simulates(StateAt(env, evs, n, false), StateAt(env, evs, n, true), evs[n - 1].now)
    ensures n == 0 ==> StateAt(env, evs, n, false) == StateAt(env, evs, n, true)
    ensures n < |evs| ==> ResponseAt(env, evs, n, false) == ResponseAt(env, evs, n, true)
  {
    hide Serve, Pruned, Simulates;
    var s, p := StateAt(env, evs, n, false), StateAt(env, evs, n, true);
    if n > 0 {
      var s0, p0, e := StateAt(env, evs, n - 1, false), StateAt(env, evs, n - 1, true), evs[n - 1];
      var clock := if n == 1 then e.now else evs[n - 2].now;
      PruningIsInvisible(env, evs, n - 1);
      if n == 1 {
        SimulatesItself(s0, clock);
      }
      ServeSimulates(env, s0, p0, clock, e.now, e.op);
      PruningSimulates(Serve(env, s0, e.now, e.op).0, Serve(env, p0, e.now, e.op).0, e.now);
    }
    if n < |evs| {
      var clock := if n == 0 then evs[n].now else evs[n - 1].now;
      if n == 0 {
        SimulatesItself(s, clock);
      }
      ServeSimulates(env, s, p, clock, evs[n].now, evs[n].op);
    }
  }

  lemma SimulatesItself(s: State, clock: int)
    ensures Simulates(s, s, clock)
  {
  }
}
