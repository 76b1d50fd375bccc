/** The token guard: expiry, and the denylist that outlives every token it revokes. */
module AuthGuard {
  import opened Wrappers
  import opened JavaScript
  import opened AuthModel
  import opened AuthProvenance

  // An HTTP header may be missing, single or repeated.
  datatype Header = Absent | One(text: string) | Many(texts: seq<string>)

  datatype Payload = Payload(sub: Id, username: Name, jti: Option<Id>, exp: int)
  datatype Caller = Caller(id: Id, username: Name, jti: Option<Id>)

  const BEARER := "Bearer "
  const MALFORMED := "Missing or malformed Authorization header"
  const INVALID := "Invalid or expired token"
  const NO_SUBJECT := "Token payload missing sub claim"
  const REVOKED := "Session has been revoked"

  function HeaderText(h: Header): Option<string> {
    match h
    case Absent => None
    case One(t) => Some(t)
    case Many(ts) => if ts == [] then None else Some(ts[0])
  }

  // Keys of the store are visible until they expire.
  predicate Denied(d: Store, jti: Id, now: int) {
    jti in d.denylist && now < d.denylist[jti]
  }

  /** The guard's answer; `decode` checks the signature. */
  function Activate(d: Store, decode: string -> Option<Payload>, header: Header, now: int): Result<Caller, string> {
    var text := HeaderText(header);
    if text.None? || !(BEARER <= text.value) then Err(MALFORMED)
    else
      var payload := decode(text.value[|BEARER|..]);
      if payload.None? || now / 1000 >= payload.value.exp then Err(INVALID)
      else if payload.value.sub == "" then Err(NO_SUBJECT)
      else if Truthy(payload.value.jti) && Denied(d, payload.value.jti.value, now) then Err(REVOKED)
      else Ok(Caller(payload.value.sub, payload.value.username, payload.value.jti))
  }

  /**
   * A request passes exactly with a header, the first if there are several, that starts with "Bearer " and goes on with
   * a token that decodes, has not expired, names an account and is not on the denylist; the caller is whom it names.
   */
  lemma PassesExactly(d: Store, decode: string -> Option<Payload>, header: Header, now: int)
    ensures
      var r := Activate(d, decode, header, now);
      var texts := match header case Absent => [] case One(t) => [t] case Many(ts) => ts;
      (r.Ok? <==>
        && texts != [] && |texts[0]| >= 7 && texts[0][..7] == "Bearer "
        && var payload := decode(texts[0][7..]);
        && payload.Some? && now / 1000 < payload.value.exp && payload.value.sub != ""
        && (payload.value.jti.Some? && payload.value.jti.value != "" && payload.value.jti.value in d.denylist ==>
              now >= d.denylist[payload.value.jti.value]))
      && (r.Ok? ==>
            var payload := decode(texts[0][7..]).value;
            r.value == Caller(payload.sub, payload.username, payload.jti))
  {
    match header {
      case Absent =>
      case One(t) => assert BEARER <= t <==> |t| >= 7 && t[..7] == "Bearer ";
      case Many(ts) =>
        if ts != [] {
          assert BEARER <= ts[0] <==> |ts[0]| >= 7 && ts[0][..7] == "Bearer ";
        }
    }
  }

  class Request {
    const authorization: Header
    var user: Option<Caller>

    constructor (authorization: Header)
      ensures this.authorization == authorization && user == None
    {
      this.authorization, this.user := authorization, None;
    }
  }

  /** The guard attaches the caller to the request exactly when it lets the request pass. */
  method CanActivate(d: Store, decode: string -> Option<Payload>, req: Request, now: int)
    returns (r: Result<bool, string>)
    modifies req
    ensures match Activate(d, decode, req.authorization, now)
            case Ok(caller) => r == Ok(true) && req.user == Some(caller)
            case Err(e) => r == Err(e) && req.user == old(req.user)
  {
    var headerStr := None;
    match req.authorization {
      case Absent =>
      case One(t) => headerStr := Some(t);
      case Many(ts) =>
        if |ts| > 0 {
          headerStr := Some(ts[0]);
        }
    }
    if headerStr.None? || headerStr.value == "" || !(BEARER <= headerStr.value) {
      return Err(MALFORMED);
    }
    var token := headerStr.value[7..];
    var payload := decode(token);
    if payload.None? || now / 1000 >= payload.value.exp {
      return Err(INVALID);
    }
    if payload.value.sub == "" {
      return Err(NO_SUBJECT);
    }
    if Truthy(payload.value.jti) {
      var jti := payload.value.jti.value;
      if jti in d.denylist && now < d.denylist[jti] {
        return Err(REVOKED);
      }
    }
    req.user := Some(Caller(payload.value.sub, payload.value.username, payload.value.jti));
    r := Ok(true);
  }

  // ---------- Sessions and denylist over a run ----------

  predicate Revokes(env: Env, s: State, now: int, op: Op, sid: Id) {
    op.RevokeSession? && op.sessionId == sid && Serve(env, s, now, op).1.Success?
  }

  lemma DenylistStep(env: Env, s: State, now: int, op: Op, sid: Id)
    ensures
      var d := Serve(env, s, now, op).0.store;
      && s.store.sessions.Keys <= d.sessions.Keys
      && (if Revokes(env, s, now, op, sid)
          then sid in s.store.sessions && sid in d.denylist && d.denylist[sid] == now + DENYLIST_TTL
          else (sid in d.denylist <==> sid in s.store.denylist)
               && (sid in d.denylist ==> d.denylist[sid] == s.store.denylist[sid]))
  {
    if GrantKind(op).Some? {
      GrantOpsOpenOne(env, s, now, op);
      hide Serve;
    } else if op.LoginStep2? {
      hide Checked;
      var d := s.store;
      if Live(d, op.challengeId, now) {
        CheckedKeeps(env, d.(challenges := d.challenges - {op.challengeId}), now,
                     d.challenges[op.challengeId].challenge, op.m1, op.newMfaToken, op.newSessionId);
      }
    } else if op.RevokeSession? {
      RevocationEffect(s.store, now, op.userId, op.currentJti, op.sessionId);
      hide SessionRevoked, FirstStep, SecondStep, TotpVerified, WebAuthnVerified, PasskeyVerified;
    } else if op.LoginStep1? {
      FirstStepKeeps(env, s.store, now, op.username, op.A, op.random, op.challengeId);
      hide SessionRevoked, FirstStep, SecondStep, TotpVerified, WebAuthnVerified, PasskeyVerified;
    } else {
      SmallOpsQuiet(env, s, now, op);
      hide Serve;
    }
  }

  predicate RevokedAt(env: Env, evs: seq<Event>, i: nat, pruning: bool, sid: Id) {
    i < |evs| && Revokes(env, StateAt(env, evs, i, pruning), evs[i].now, evs[i].op, sid)
  }

  lemma {:induction false} SessionsPersist(env: Env, evs: seq<Event>, m: nat, n: nat, pruning: bool)
    requires m <= n <= |evs|
    ensures StateAt(env, evs, m, pruning).store.sessions.Keys <= StateAt(env, evs, n, pruning).store.sessions.Keys
  {
    hide Serve;
    if m < n {
      SessionsPersist(env, evs, m, n - 1, pruning);
      var s, e := StateAt(env, evs, n - 1, pruning), evs[n - 1];
      DenylistStep(env, s, e.now, e.op, "");
      PrunedStore(Serve(env, s, e.now, e.op).0, e.now);
    }
  }

  // A revoked session is on the denylist from then on, for a day after the latest revocation.
  lemma {:induction false} DenylistHolds(env: Env, evs: seq<Event>, i: nat, n: nat, pruning: bool, sid: Id)
    requires Monotone(evs) && i < n <= |evs| && RevokedAt(env, evs, i, pruning, sid)
    ensures
      var denylist := StateAt(env, evs, n, pruning).store.denylist;
      sid in denylist && denylist[sid] >= evs[i].now + DENYLIST_TTL
  {
    hide Serve;
    var s, e := StateAt(env, evs, n - 1, pruning), evs[n - 1];
    DenylistStep(env, s, e.now, e.op, sid);
    PrunedStore(Serve(env, s, e.now, e.op).0, e.now);
    if i < n - 1 {
      DenylistHolds(env, evs, i, n - 1, pruning, sid);
    }
  }

  lemma {:induction false} DenylistOrigin(env: Env, evs: seq<Event>, n: nat, pruning: bool, sid: Id) returns (i: nat)
    requires n <= |evs| && sid in StateAt(env, evs, n, pruning).store.denylist
    ensures i < n && RevokedAt(env, evs, i, pruning, sid)
  {
    hide Serve;
    var s, e := StateAt(env, evs, n - 1, pruning), evs[n - 1];
    DenylistStep(env, s, e.now, e.op, sid);
    PrunedStore(Serve(env, s, e.now, e.op).0, e.now);
    if RevokedAt(env, evs, n - 1, pruning, sid) {
      i := n - 1;
    } else {
      i := DenylistOrigin(env, evs, n - 1, pruning, sid);
    }
  }

  // ---------- Tokens ----------

  /** The event's answer hands out this token. */
  predicate HandsOut(env: Env, evs: seq<Event>, j: nat, pruning: bool, t: Token) {
    j < |evs|
    && (ResponseAt(env, evs, j, pruning).Granted? || ResponseAt(env, evs, j, pruning).LoggedIn?)
    && ResponseAt(env, evs, j, pruning).token == t
  }

  lemma HandedOutTimes(env: Env, evs: seq<Event>, j: nat, pruning: bool, t: Token)
    requires HandsOut(env, evs, j, pruning, t)
    ensures t.iat == evs[j].now / 1000 && t.exp == t.iat + TOKEN_LIFETIME_SECONDS && !evs[j].op.RevokeSession?
  {
    var s, e := StateAt(env, evs, j, pruning), evs[j];
    if GrantKind(e.op).Some? {
      GrantOpsOpenOne(env, s, e.now, e.op);
      hide Serve;
      GrantsOnly(env, s, e.now, e.op);
    } else if e.op.LoginStep2? {
      hide Locked, WithFailure;
    } else if e.op.RevokeSession? {
      RevocationEffect(s.store, e.now, e.op.userId, e.op.currentJti, e.op.sessionId);
      hide SessionRevoked, FirstStep, SecondStep, TotpVerified, WebAuthnVerified, PasskeyVerified;
    } else if e.op.LoginStep1? {
      FirstStepKeeps(env, s.store, e.now, e.op.username, e.op.A, e.op.random, e.op.challengeId);
      hide SessionRevoked, FirstStep, SecondStep, TotpVerified, WebAuthnVerified, PasskeyVerified;
    } else {
      SmallOpsQuiet(env, s, e.now, e.op);
      OnlyStep2LogsIn(env, s, e.now, e.op);
      hide Serve;
    }
  }

  lemma GrantsOnly(env: Env, s: State, now: int, op: Op)
    requires GrantKind(op).Some?
    ensures !Serve(env, s, now, op).1.LoggedIn?
  {
    GrantOpsOpenOne(env, s, now, op);
    hide Serve;
  }

  lemma OnlyStep2LogsIn(env: Env, s: State, now: int, op: Op)
    requires GrantKind(op).None? && !op.LoginStep2?
    ensures !Serve(env, s, now, op).1.LoggedIn?
  {
    hide SecondStep, TotpVerified, WebAuthnVerified, PasskeyVerified, WithCredential, HasPasskeys, Locked;
  }

  function PayloadOf(t: Token): Payload {
    Payload(t.sub, t.username, Some(t.jti), t.exp)
  }

  /**
   * A token handed out before its session was revoked is refused at every later time: while the denylist entry
   * stands, because of it; afterwards, because the token has expired, to the second.
   */
  lemma RevokedIsRefused(env: Env, evs: seq<Event>, j: nat, i: nat, n: nat, pruning: bool, t: Token,
                         decode: string -> Option<Payload>, raw: string, now: int)
    requires Monotone(evs) && HandsOut(env, evs, j, pruning, t) && t.jti != "" && decode(raw) == Some(PayloadOf(t))
    requires j < i < n <= |evs| && RevokedAt(env, evs, i, pruning, t.jti)
    ensures Activate(StateAt(env, evs, n, pruning).store, decode, One(BEARER + raw), now).Err?
  {
    hide Serve, StateAt;
    HandedOutTimes(env, evs, j, pruning, t);
    DenylistHolds(env, evs, i, n, pruning, t.jti);
    assert (BEARER + raw)[|BEARER|..] == raw;
    if now >= evs[i].now + DENYLIST_TTL {
      assert now / 1000 >= evs[j].now / 1000 + 86400;
    }
  }

  /**
   * The guard, exactly: a token handed out with a new session id passes if and only if it has not expired and no
   * event has revoked its session.
   */
  lemma GuardIsExact(env: Env, evs: seq<Event>, j: nat, n: nat, pruning: bool, t: Token,
                     decode: string -> Option<Payload>, raw: string, now: int)
    requires Monotone(evs) && HandsOut(env, evs, j, pruning, t) && decode(raw) == Some(PayloadOf(t))
    requires t.jti != "" && t.sub != "" && t.jti !in StateAt(env, evs, j, pruning).store.sessions
    requires j < n <= |evs|
    ensures
      Activate(StateAt(env, evs, n, pruning).store, decode, One(BEARER + raw), now).Ok?
      <==> now / 1000 < evs[j].now / 1000 + TOKEN_LIFETIME_SECONDS
           && forall i :: 0 <= i < n ==> !RevokedAt(env, evs, i, pruning, t.jti)
  {
    hide Serve, StateAt;
    HandedOutTimes(env, evs, j, pruning, t);
    assert (BEARER + raw)[|BEARER|..] == raw;
    if i :| 0 <= i < n && RevokedAt(env, evs, i, pruning, t.jti) {
      DenylistStep(env, StateAt(env, evs, i, pruning), evs[i].now, evs[i].op, t.jti);
      if i <= j {
        SessionsPersist(env, evs, i, j, pruning);
      }
      RevokedIsRefused(env, evs, j, i, n, pruning, t, decode, raw, now);
    } else if t.jti in StateAt(env, evs, n, pruning).store.denylist {
      var i := DenylistOrigin(env, evs, n, pruning, t.jti);
    }
  }
}
