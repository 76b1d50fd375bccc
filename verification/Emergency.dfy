/**
 * Emergency access: trusted contacts, requests with a waiting period, denial and revocation. The specification
 * is a step function over a store of rows; the service class carries out the same steps in place.
 */
module Emergency {
  import opened Wrappers
  import opened JavaScript

  type Id = string

  const DEFAULT_WAITING_HOURS := 72
  const MS_PER_HOUR := 3600 * 1000

  datatype ContactStatus = Active | Revoked
  datatype Contact = Contact(
    ownerUserId: Id, contactEmail: string, contactUserId: Id, waitingPeriodHours: int,
    wrappedVaultKey: Option<string>, status: ContactStatus)

  datatype RequestStatus = Pending | Denied | Granted | Cancelled
  datatype Request = Request(
    contactId: Id, ownerUserId: Id, contactUserId: Id, status: RequestStatus,
    requestedAt: int, grantsAt: int, resolvedAt: Option<int>)

  datatype State = State(contacts: map<Id, Contact>, requests: map<Id, Request>)

  // The last component of AddContact and RequestAccess is the id that the database generates for a new row.
  datatype Op =
    | AddContact(ownerUserId: Id, contactEmail: string, contactUserId: Id, hours: Option<int>, key: Option<string>,
                 newId: Id)
    | RevokeContact(ownerUserId: Id, contactId: Id)
    | RequestAccess(contactUserId: Id, contactId: Id, newId: Id)
    | DenyRequest(ownerUserId: Id, requestId: Id)
    | GetStatus(userId: Id, requestId: Id)

  datatype Response =
    | ContactSaved(id: Id)
    | ContactGone
    | RequestCreated(id: Id)
    | RequestExists(id: Id)
    | RequestDenied
    | Status(request: Request, wrappedVaultKey: Option<string>)
    | NotFound
    | NotPending
    | DuplicateId

  // ---------- One step ----------

  predicate IsActiveFor(c: Contact, owner: Id, user: Id) {
    c.ownerUserId == owner && c.contactUserId == user && c.status == Active
  }

  ghost function ActiveFor(s: State, owner: Id, user: Id): (r: Option<Id>)
    ensures r.Some? ==> r.value in s.contacts && IsActiveFor(s.contacts[r.value], owner, user)
    ensures r.None? ==> forall c :: c in s.contacts ==> !IsActiveFor(s.contacts[c], owner, user)
  {
    if c :| c in s.contacts && IsActiveFor(s.contacts[c], owner, user) then Some(c) else None
  }

  predicate IsPendingFor(r: Request, contactId: Id) {
    r.contactId == contactId && r.status == Pending
  }

  ghost function PendingFor(s: State, contactId: Id): (r: Option<Id>)
    ensures r.Some? ==> r.value in s.requests && IsPendingFor(s.requests[r.value], contactId)
    ensures r.None? ==> forall q :: q in s.requests ==> !IsPendingFor(s.requests[q], contactId)
  {
    if q :| q in s.requests && IsPendingFor(s.requests[q], contactId) then Some(q) else None
  }

  function CancelPending(requests: map<Id, Request>, contactId: Id, now: int): map<Id, Request> {
    map q | q in requests ::
      if IsPendingFor(requests[q], contactId) then requests[q].(status := Cancelled, resolvedAt := Some(now))
      else requests[q]
  }

  ghost function Step(s: State, now: int, op: Op): (State, Response) {
    match op
    case AddContact(owner, email, user, hours, key, newId) =>
      var h := if hours.Some? then hours.value else DEFAULT_WAITING_HOURS;
      (match ActiveFor(s, owner, user)
       case Some(c) =>
         var stored := s.contacts[c];
         var k := if Truthy(key) then key else stored.wrappedVaultKey;
         (s.(contacts := s.contacts[c := stored.(waitingPeriodHours := h, wrappedVaultKey := k)]), ContactSaved(c))
       case None =>
         if newId in s.contacts then (s, DuplicateId)
         else (s.(contacts := s.contacts[newId := Contact(owner, email, user, h, key, Active)]), ContactSaved(newId)))
    case RevokeContact(owner, c) =>
      if c !in s.contacts || s.contacts[c].ownerUserId != owner then (s, NotFound)
      else
        (State(s.contacts[c := s.contacts[c].(status := Revoked, wrappedVaultKey := None)],
               CancelPending(s.requests, c, now)),
         ContactGone)
    case RequestAccess(user, c, newId) =>
      if c !in s.contacts || s.contacts[c].contactUserId != user || s.contacts[c].status != Active then (s, NotFound)
      else
        (match PendingFor(s, c)
         case Some(q) => (s, RequestExists(q))
         case None =>
           if newId in s.requests then (s, DuplicateId)
           else
             var contact := s.contacts[c];
             var r := Request(c, contact.ownerUserId, contact.contactUserId, Pending,
                              now, now + contact.waitingPeriodHours * MS_PER_HOUR, None);
             (s.(requests := s.requests[newId := r]), RequestCreated(newId)))
    case DenyRequest(owner, q) =>
      if q !in s.requests || s.requests[q].ownerUserId != owner then (s, NotFound)
      else if s.requests[q].status != Pending then (s, NotPending)
      else (s.(requests := s.requests[q := s.requests[q].(status := Denied, resolvedAt := Some(now))]), RequestDenied)
    case GetStatus(user, q) =>
      if q !in s.requests || !IsParty(s.requests[q], user) then (s, NotFound)
      else
        var r := Matured(s.requests[q], now);
        var key := if r.status == Granted && r.contactId in s.contacts
                   then s.contacts[r.contactId].wrappedVaultKey else None;
        (s.(requests := s.requests[q := r]), Status(r, key))
  }

  predicate IsParty(r: Request, user: Id) {
    r.ownerUserId == user || r.contactUserId == user
  }

  function Matured(r: Request, now: int): Request {
    if r.status == Pending && now >= r.grantsAt then r.(status := Granted, resolvedAt := Some(now)) else r
  }

  // ---------- What every step keeps ----------

  ghost predicate Inv(s: State) {
    RevokedHaveNoKey(s) && ActiveUnique(s) && PendingUnique(s)
    && forall q :: q in s.requests ==> HasContact(s, s.requests[q])
  }

  ghost predicate RevokedHaveNoKey(s: State) {
    forall c :: c in s.contacts && s.contacts[c].status == Revoked ==> s.contacts[c].wrappedVaultKey == None
  }

  // At most one active contact for each pair of users ...
  ghost predicate ActiveUnique(s: State) {
    forall c, d, o, u | c in s.contacts && d in s.contacts ::
      IsActiveFor(s.contacts[c], o, u) && IsActiveFor(s.contacts[d], o, u) ==> c == d
  }

  // ... and at most one pending request for each contact, so a query for one has a single answer.
  ghost predicate PendingUnique(s: State) {
    forall q, p, c | q in s.requests && p in s.requests ::
      IsPendingFor(s.requests[q], c) && IsPendingFor(s.requests[p], c) ==> q == p
  }

  // A request carries its contact's two users, and a pending one has an active contact.
  ghost predicate HasContact(s: State, r: Request) {
    && r.contactId in s.contacts
    && r.ownerUserId == s.contacts[r.contactId].ownerUserId
    && r.contactUserId == s.contacts[r.contactId].contactUserId
    && (r.status == Pending ==> s.contacts[r.contactId].status == Active)
  }

  // Granted requests have matured by the time on the clock.
  ghost predicate GrantedMatured(s: State, clock: int) {
    forall q :: q in s.requests && s.requests[q].status == Granted ==> s.requests[q].grantsAt <= clock
  }

  lemma StepKeepsInv(s: State, now: int, op: Op)
    requires Inv(s)
    ensures Inv(Step(s, now, op).0)
  {
    match op {
      case AddContact(_, _, _, _, _, _) => DesignationKeepsInv(s, now, op);
      case RevokeContact(_, _) =>
      case RequestAccess(_, _, _) =>
      case DenyRequest(_, _) =>
      case GetStatus(_, _) =>
    }
  }

  lemma DesignationKeepsInv(s: State, now: int, op: Op)
    requires Inv(s) && op.AddContact?
    ensures Inv(Step(s, now, op).0)
  {
    hide Truthy;
  }

  lemma StepKeepsMatured(s: State, clock: int, now: int, op: Op)
    requires GrantedMatured(s, clock) && clock <= now
    ensures GrantedMatured(Step(s, now, op).0, now)
  {
  }

  /** Resolved requests are final, a revoked contact stays revoked, and no row ever disappears or changes hands. */
  ghost predicate Grows(s: State, s': State) {
    && (forall q :: q in s.requests ==> q in s'.requests && SameTerms(s.requests[q], s'.requests[q]))
    && (forall q :: q in s.requests && s.requests[q].status != Pending ==>
        q in s'.requests && s'.requests[q] == s.requests[q])
    && (forall c :: c in s.contacts ==> c in s'.contacts && SamePeople(s.contacts[c], s'.contacts[c]))
    && (forall c :: c in s.contacts && s.contacts[c].status == Revoked ==>
        c in s'.contacts && s'.contacts[c] == s.contacts[c])
  }

  lemma AddGrows(s: State, now: int, op: Op)
    requires RevokedHaveNoKey(s) && op.AddContact?
    ensures Grows(s, Step(s, now, op).0)
  {
    hide Truthy;
    match ActiveFor(s, op.ownerUserId, op.contactUserId) {
      case Some(c) =>
      case None =>
    }
  }

  lemma RevokeGrows(s: State, now: int, op: Op)
    requires RevokedHaveNoKey(s) && op.RevokeContact?
    ensures Grows(s, Step(s, now, op).0)
  {
  }

  lemma RequestGrows(s: State, now: int, op: Op)
    requires op.RequestAccess? || op.DenyRequest? || op.GetStatus?
    ensures Grows(s, Step(s, now, op).0)
  {
    match op {
      case RequestAccess(_, c, _) => hide IsPendingFor;
      case DenyRequest(_, _) =>
      case GetStatus(_, _) =>
    }
  }

  lemma StepGrows(s: State, now: int, op: Op)
    requires RevokedHaveNoKey(s)
    ensures Grows(s, Step(s, now, op).0)
  {
    hide Step, Grows, RevokedHaveNoKey;
    match op {
      case AddContact(_, _, _, _, _, _) => AddGrows(s, now, op);
      case RevokeContact(_, _) => RevokeGrows(s, now, op);
      case _ => RequestGrows(s, now, op);
    }
  }

  lemma GrowsTransitive(s: State, t: State, u: State)
    requires Grows(s, t) && Grows(t, u)
    ensures Grows(s, u)
  {
  }

  ghost predicate SameTerms(r: Request, r': Request) {
    r' == r.(status := r'.status, resolvedAt := r'.resolvedAt)
  }

  ghost predicate SamePeople(c: Contact, c': Contact) {
    c'.ownerUserId == c.ownerUserId && c'.contactUserId == c.contactUserId
  }

  // ---------- Whole histories ----------

  datatype Event = Event(now: int, op: Op)

  const EMPTY := State(map[], map[])

  ghost predicate Monotone(evs: seq<Event>) {
    forall i, j :: 0 <= i <= j < |evs| ==> evs[i].now <= evs[j].now
  }

  ghost function StateAt(evs: seq<Event>, n: nat): State
    requires n <= |evs|
  {
    if n == 0 then EMPTY else Step(StateAt(evs, n - 1), evs[n - 1].now, evs[n - 1].op).0
  }

  ghost function ResponseAt(evs: seq<Event>, i: nat): Response
    requires i < |evs|
  {
    Step(StateAt(evs, i), evs[i].now, evs[i].op).1
  }

  lemma {:induction false} InvAt(evs: seq<Event>, n: nat)
    requires n <= |evs|
    ensures Inv(StateAt(evs, n))
  {
    if n > 0 {
      InvAt(evs, n - 1);
      StepKeepsInv(StateAt(evs, n - 1), evs[n - 1].now, evs[n - 1].op);
    }
  }

  lemma {:induction false} MaturedAt(evs: seq<Event>, n: nat, clock: int)
    requires Monotone(evs) && n <= |evs| && (n < |evs| ==> clock == evs[n].now)
             && (n == |evs| > 0 ==> clock == evs[n - 1].now)
    ensures GrantedMatured(StateAt(evs, n), clock)
  {
    if n > 0 {
      MaturedAt(evs, n - 1, evs[n - 1].now);
      StepKeepsMatured(StateAt(evs, n - 1), evs[n - 1].now, evs[n - 1].now, evs[n - 1].op);
    }
  }

  lemma {:induction false} HistoryGrows(evs: seq<Event>, m: nat, n: nat)
    requires m <= n <= |evs|
    ensures Grows(StateAt(evs, m), StateAt(evs, n))
  {
    hide Step, RevokedHaveNoKey, Grows;
    if m == n {
      GrowsReflexive(StateAt(evs, n));
    } else {
      HistoryGrows(evs, m, n - 1);
      InvAt(evs, n - 1);
      StepGrows(StateAt(evs, n - 1), evs[n - 1].now, evs[n - 1].op);
      GrowsTransitive(StateAt(evs, m), StateAt(evs, n - 1), StateAt(evs, n));
    }
  }

  lemma GrowsReflexive(s: State)
    ensures Grows(s, s)
  {
  }

  // Event j created request q for contact c when the contact's waiting period was h hours.
  ghost predicate CreatedAt(evs: seq<Event>, j: nat, q: Id, c: Id, h: int)
  {
    && j < |evs| && evs[j].op.RequestAccess? && evs[j].op.contactId == c
    && ResponseAt(evs, j) == RequestCreated(q)
    && c in StateAt(evs, j).contacts && h == StateAt(evs, j).contacts[c].waitingPeriodHours
  }

  ghost predicate DeniedAt(evs: seq<Event>, k: nat, q: Id) {
    k < |evs| && evs[k].op.DenyRequest? && evs[k].op.requestId == q && ResponseAt(evs, k) == RequestDenied
  }

  ghost predicate RevokedAt(evs: seq<Event>, k: nat, c: Id) {
    k < |evs| && evs[k].op.RevokeContact? && evs[k].op.contactId == c && ResponseAt(evs, k) == ContactGone
  }

  // Every stored request was created by some event, on the terms that still stand in its row.
  lemma {:induction false} Created(evs: seq<Event>, n: nat, q: Id) returns (j: nat, h: int)
    requires n <= |evs| && q in StateAt(evs, n).requests
    ensures j < n
    ensures var r := StateAt(evs, n).requests[q];
            CreatedAt(evs, j, q, r.contactId, h) && r.grantsAt == evs[j].now + h * MS_PER_HOUR
  {
    var s := StateAt(evs, n - 1);
    if q in s.requests {
      j, h := Created(evs, n - 1, q);
      InvAt(evs, n - 1);
      StepGrows(s, evs[n - 1].now, evs[n - 1].op);
    } else {
      j := n - 1;
      h := s.contacts[evs[j].op.contactId].waitingPeriodHours;
    }
  }

  predicate Refused(r: Request) {
    r.status == Denied || r.status == Cancelled
  }

  lemma RefusingStep(s: State, now: int, op: Op, q: Id)
    requires Inv(s)
    requires var s' := Step(s, now, op).0;
             q in s'.requests && Refused(s'.requests[q]) && !(q in s.requests && Refused(s.requests[q]))
    ensures
      var (s', resp) := Step(s, now, op);
      || (op.DenyRequest? && op.requestId == q && resp == RequestDenied)
      || (op.RevokeContact? && op.contactId == s'.requests[q].contactId && resp == ContactGone)
  {
  }

  // A request that is denied or cancelled was denied, or its contact revoked, by some event.
  lemma {:induction false} ResolvedBy(evs: seq<Event>, n: nat, q: Id) returns (k: nat)
    requires n <= |evs| && q in StateAt(evs, n).requests && Refused(StateAt(evs, n).requests[q])
    ensures k < n && (DeniedAt(evs, k, q) || RevokedAt(evs, k, StateAt(evs, n).requests[q].contactId))
  {
    hide Step, RevokedHaveNoKey;
    var s := StateAt(evs, n - 1);
    InvAt(evs, n - 1);
    if q in s.requests && Refused(s.requests[q]) {
      StepGrows(s, evs[n - 1].now, evs[n - 1].op);
      k := ResolvedBy(evs, n - 1, q);
    } else {
      k := n - 1;
      RefusingStep(s, evs[k].now, evs[k].op, q);
    }
  }

  /**
   * The waiting period, over whole histories. A party who asks about a request gets a wrapped key exactly when
   * the waiting period in force at its creation is over, no event has denied it or revoked its contact, and the
   * contact row has a key; and it is that key.
   */
  lemma KeyReleasedExactlyAfterWaiting(evs: seq<Event>, i: nat, j: nat, q: Id, c: Id, h: int, user: Id, key: string)
    requires Monotone(evs) && j < i < |evs| && evs[i].op == GetStatus(user, q) && CreatedAt(evs, j, q, c, h)
    ensures
      var released := ResponseAt(evs, i).Status? && ResponseAt(evs, i).wrappedVaultKey == Some(key);
      released <==>
        && user in {StateAt(evs, j).contacts[c].ownerUserId, StateAt(evs, j).contacts[c].contactUserId}
        && evs[i].now >= evs[j].now + h * MS_PER_HOUR
        && (forall k :: 0 <= k < i ==> !DeniedAt(evs, k, q) && !RevokedAt(evs, k, c))
        && c in StateAt(evs, i).contacts && StateAt(evs, i).contacts[c].wrappedVaultKey == Some(key)
  {
    hide Step, Inv;
    StoredRequest(evs, i, j, q, c, h);
    MaturedAt(evs, i, evs[i].now);
    StatusStep(StateAt(evs, i), evs[i].now, user, q);
    StillOpen(evs, i, q, c);
  }

  lemma StatusStep(s: State, now: int, user: Id, q: Id)
    requires q in s.requests && s.requests[q].contactId in s.contacts
    ensures
      var r, contact := s.requests[q], s.contacts[s.requests[q].contactId];
      var resp := Step(s, now, GetStatus(user, q)).1;
      resp.Status? && resp.wrappedVaultKey.Some? <==>
        IsParty(r, user) && (r.status == Granted || (r.status == Pending && now >= r.grantsAt))
            && contact.wrappedVaultKey.Some?
    ensures
      var resp := Step(s, now, GetStatus(user, q)).1;
      resp.Status? && resp.wrappedVaultKey.Some? ==>
          resp.wrappedVaultKey == s.contacts[s.requests[q].contactId].wrappedVaultKey
  {
  }

  // The row of a created request keeps the terms of its creation.
  lemma StoredRequest(evs: seq<Event>, i: nat, j: nat, q: Id, c: Id, h: int)
    requires j < i <= |evs| && CreatedAt(evs, j, q, c, h)
    ensures
      var s, contact := StateAt(evs, i), StateAt(evs, j).contacts[c];
      && q in s.requests && c in s.contacts && s.requests[q].contactId == c
      && s.requests[q].ownerUserId == contact.ownerUserId && s.requests[q].contactUserId == contact.contactUserId
      && s.requests[q].grantsAt == evs[j].now + h * MS_PER_HOUR
  {
    hide Step;
    JustCreated(evs, j, q, c, h);
    HistoryGrows(evs, j + 1, i);
    InvAt(evs, i);
  }

  // Denial and revocation are what stands between a request and the contact's key.
  lemma StillOpen(evs: seq<Event>, i: nat, q: Id, c: Id)
    requires i <= |evs|
    requires q in StateAt(evs, i).requests && c in StateAt(evs, i).contacts
             && StateAt(evs, i).requests[q].contactId == c
    ensures
      var s := StateAt(evs, i);
      !Refused(s.requests[q]) && s.contacts[c].wrappedVaultKey.Some? ==>
        forall k :: 0 <= k < i ==> !DeniedAt(evs, k, q) && !RevokedAt(evs, k, c)
    ensures
      var s := StateAt(evs, i);
      (forall k :: 0 <= k < i ==> !DeniedAt(evs, k, q) && !RevokedAt(evs, k, c)) ==>
        !Refused(s.requests[q])
  {
    hide Step;
    forall k | 0 <= k < i && (DeniedAt(evs, k, q) || RevokedAt(evs, k, c))
      ensures StateAt(evs, i).requests[q].status == Denied || StateAt(evs, i).contacts[c].wrappedVaultKey == None
    {
      EffectOfRefusal(evs, k, q, c);
      HistoryGrows(evs, k + 1, i);
    }
    if Refused(StateAt(evs, i).requests[q]) {
      var k := ResolvedBy(evs, i, q);
      assert DeniedAt(evs, k, q) || RevokedAt(evs, k, c);
    }
  }

  lemma EffectOfRefusal(evs: seq<Event>, k: nat, q: Id, c: Id)
    requires k < |evs|
    ensures var s := StateAt(evs, k + 1);
            && (DeniedAt(evs, k, q) ==> q in s.requests && s.requests[q].status == Denied)
            && (RevokedAt(evs, k, c) ==>
                  c in s.contacts && s.contacts[c].status == Revoked && s.contacts[c].wrappedVaultKey == None)
  {
  }

  lemma JustCreated(evs: seq<Event>, j: nat, q: Id, c: Id, h: int)
    requires CreatedAt(evs, j, q, c, h)
    ensures
      var s := StateAt(evs, j);
      var contact := s.contacts[c];
      q in StateAt(evs, j + 1).requests
      && StateAt(evs, j + 1).requests[q]
         == Request(c, contact.ownerUserId, contact.contactUserId, Pending, evs[j].now, evs[j].now + h * MS_PER_HOUR,
                    None)
  {
  }

  /** No key without a request: whoever gets one asks about a request that an earlier event created. */
  lemma KeyHasARequest(evs: seq<Event>, i: nat, user: Id, q: Id) returns (j: nat, c: Id, h: int)
    requires i < |evs| && evs[i].op == GetStatus(user, q)
    requires ResponseAt(evs, i).Status? && ResponseAt(evs, i).wrappedVaultKey.Some?
    ensures j < i && CreatedAt(evs, j, q, c, h)
  {
    c := StateAt(evs, i).requests[q].contactId;
    j, h := Created(evs, i, q);
  }

  /**
   * The way through: a contact designated with a key, whose request meets no other pending one, asks at time t and
   * gets exactly that key from the end of the waiting period given at designation, and none before.
   */
  lemma DesignatedKeyArrives(s: State, t0: int, t1: int, t: int, owner: Id, email: string, user: Id, hours: int,
                             key: string, c: Id, q: Id)
    requires Inv(s) && key != "" && ActiveFor(s, owner, user).None? && c !in s.contacts && q !in s.requests
    ensures
      var s1 := Step(s, t0, AddContact(owner, email, user, Some(hours), Some(key), c)).0;
      var (s2, asked) := Step(s1, t1, RequestAccess(user, c, q));
      var answer := Step(s2, t, GetStatus(user, q)).1;
      && asked == RequestCreated(q) && answer.Status?
      && answer.wrappedVaultKey == if t >= t1 + hours * MS_PER_HOUR then Some(key) else None
  {
    var s1 := Step(s, t0, AddContact(owner, email, user, Some(hours), Some(key), c)).0;
    assert s1.requests == s.requests;
    forall r | r in s.requests ensures !IsPendingFor(s.requests[r], c) {
      assert HasContact(s, s.requests[r]);
    }
  }

  // ---------- Designating again ----------

  // The same operation, but for the waiting period given in a designation.
  predicate SameButHours(op: Op, op': Op) {
    op' == op || (op.AddContact? && op'.AddContact? && op' == op.(hours := op'.hours))
  }

  // Two histories that part after event j, and then only in the waiting periods of designations.
  ghost predicate PartInHours(evs: seq<Event>, evs': seq<Event>, j: nat) {
    && |evs'| == |evs| && j < |evs| && evs[..j + 1] == evs'[..j + 1]
    && forall k :: j < k < |evs| ==> evs'[k].now == evs[k].now && SameButHours(evs[k].op, evs'[k].op)
  }

  // Two stores with one row for request q, whose contacts differ in their waiting periods alone.
  ghost predicate Twins(s: State, s': State, q: Id) {
    && s'.contacts.Keys == s.contacts.Keys
    && (forall c :: c in s.contacts ==> SameButPeriod(s.contacts[c], s'.contacts[c]))
    && q in s.requests && q in s'.requests && s'.requests[q] == s.requests[q]
  }

  ghost predicate SameButPeriod(c: Contact, c': Contact) {
    c' == c.(waitingPeriodHours := c'.waitingPeriodHours)
  }

  lemma TwinActive(s: State, s': State, q: Id, owner: Id, user: Id)
    requires Twins(s, s', q) && ActiveUnique(s)
    ensures ActiveFor(s', owner, user) == ActiveFor(s, owner, user)
  {
    var r, r' := ActiveFor(s, owner, user), ActiveFor(s', owner, user);
    if r.Some? {
      assert SameButPeriod(s.contacts[r.value], s'.contacts[r.value]);
      assert IsActiveFor(s'.contacts[r.value], owner, user);
    }
    if r'.Some? {
      assert SameButPeriod(s.contacts[r'.value], s'.contacts[r'.value]);
      assert IsActiveFor(s.contacts[r'.value], owner, user);
    }
  }

  lemma TwinOfItself(s: State, q: Id)
    requires q in s.requests
    ensures Twins(s, s, q)
  {
  }

  lemma TwinDesignation(s: State, s': State, now: int, op: Op, op': Op, q: Id)
    requires Twins(s, s', q) && ActiveUnique(s) && SameButHours(op, op') && op.AddContact?
    ensures Twins(Step(s, now, op).0, Step(s', now, op').0, q)
  {
    hide Truthy, IsActiveFor, ActiveUnique;
    TwinActive(s, s', q, op.ownerUserId, op.contactUserId);
  }

  lemma TwinStep(s: State, s': State, now: int, op: Op, op': Op, q: Id)
    requires Twins(s, s', q) && ActiveUnique(s) && SameButHours(op, op')
    ensures Twins(Step(s, now, op).0, Step(s', now, op').0, q)
  {
    match op {
      case AddContact(_, _, _, _, _, _) =>
        hide Step, Twins;
        TwinDesignation(s, s', now, op, op', q);
      case RevokeContact(_, _) =>
      case RequestAccess(_, _, _) =>
      case DenyRequest(_, _) =>
      case GetStatus(_, _) =>
    }
  }

  lemma {:induction false} SamePrefix(evs: seq<Event>, evs': seq<Event>, n: nat)
    requires n <= |evs| && n <= |evs'| && evs[..n] == evs'[..n]
    ensures StateAt(evs, n) == StateAt(evs', n)
  {
    hide Step;
    if n > 0 {
      assert evs[..n - 1] == evs[..n][..n - 1] == evs'[..n - 1] && evs[n - 1] == evs[..n][n - 1] == evs'[n - 1];
      SamePrefix(evs, evs', n - 1);
    }
  }

  lemma {:induction false} TwinHistories(evs: seq<Event>, evs': seq<Event>, j: nat, n: nat, q: Id, c: Id, h: int)
    requires PartInHours(evs, evs', j) && CreatedAt(evs, j, q, c, h) && j < n <= |evs|
    ensures Twins(StateAt(evs, n), StateAt(evs', n), q)
  {
    hide Step, Twins;
    if n == j + 1 {
      hide CreatedAt;
      JustCreated(evs, j, q, c, h);
      SamePrefix(evs, evs', n);
      TwinOfItself(StateAt(evs, n), q);
    } else {
      hide CreatedAt;
      TwinHistories(evs, evs', j, n - 1, q, c, h);
      InvAt(evs, n - 1);
      TwinStep(StateAt(evs, n - 1), StateAt(evs', n - 1), evs[n - 1].now, evs[n - 1].op, evs'[n - 1].op, q);
    }
  }

  /**
   * The waiting periods given in later designations, however many, have no bearing on a request that is already
   * there: at every later moment anybody who asks about it gets the same answer, row and key, as if they had been
   * others.
   */
  lemma RedesignationIsNotRetroactive(evs: seq<Event>, evs': seq<Event>, j: nat, i: nat, q: Id, c: Id, h: int, user: Id,
                                      now: int)
    requires PartInHours(evs, evs', j) && CreatedAt(evs, j, q, c, h) && j < i <= |evs|
    ensures Step(StateAt(evs, i), now, GetStatus(user, q)).1 == Step(StateAt(evs', i), now, GetStatus(user, q)).1
  {
    TwinHistories(evs, evs', j, i, q, c, h);
    TwinAnswers(StateAt(evs, i), StateAt(evs', i), q, user, now);
  }

  lemma TwinAnswers(s: State, s': State, q: Id, user: Id, now: int)
    requires Twins(s, s', q)
    ensures Step(s, now, GetStatus(user, q)).1 == Step(s', now, GetStatus(user, q)).1
  {
    var c := s.requests[q].contactId;
    if c in s.contacts {
      assert SameButPeriod(s.contacts[c], s'.contacts[c]);
    }
  }

  // ---------- The service ----------

  lemma RevocationIs(s: State, now: int, owner: Id, c: Id)
    ensures Step(s, now, RevokeContact(owner, c))
            == if c !in s.contacts || s.contacts[c].ownerUserId != owner then (s, NotFound)
               else (State(s.contacts[c := s.contacts[c].(status := Revoked, wrappedVaultKey := None)],
                           CancelPending(s.requests, c, now)),
                     ContactGone)
  {
  }

  // The map that the cancelling loop ends with.
  lemma AllCancelled(before: map<Id, Request>, after: map<Id, Request>, contactId: Id, now: int)
    requires after.Keys == before.Keys && forall q :: q in before ==>
             after[q] == CancelPending(before, contactId, now)[q]
    ensures after == CancelPending(before, contactId, now)
  {
  }

  class EmergencyService {
    var contacts: map<Id, Contact>
    var requests: map<Id, Request>

    ghost function Snapshot(): State
      reads this
    {
      State(contacts, requests)
    }

    ghost predicate Valid()
      reads this
    {
      Inv(Snapshot())
    }

    constructor ()
      ensures Valid() && Snapshot() == EMPTY
    {
      contacts, requests := map[], map[];
    }

    method FindActive(owner: Id, user: Id) returns (r: Option<Id>)
      requires Valid()
      ensures r == ActiveFor(Snapshot(), owner, user)
    {
      r := None;
      var ids := contacts.Keys;
      while ids != {}
        invariant ids <= contacts.Keys
        invariant forall c :: c in contacts && c !in ids ==> !IsActiveFor(contacts[c], owner, user)
        decreases ids
      {
        var c :| c in ids;
        if IsActiveFor(contacts[c], owner, user) {
          return Some(c);
        }
        ids := ids - {c};
      }
    }

    method FindPending(contactId: Id) returns (r: Option<Id>)
      requires Valid()
      ensures r == PendingFor(Snapshot(), contactId)
    {
      r := None;
      var ids := requests.Keys;
      while ids != {}
        invariant ids <= requests.Keys
        invariant forall q :: q in requests && q !in ids ==> !IsPendingFor(requests[q], contactId)
        decreases ids
      {
        var q :| q in ids;
        if IsPendingFor(requests[q], contactId) {
          return Some(q);
        }
        ids := ids - {q};
      }
    }

    method AddContact(ownerUserId: Id, contactEmail: string, contactUserId: Id, hours: Option<int>, key: Option<string>,
                      newId: Id, ghost now: int)
      returns (resp: Response)
      requires Valid()
      modifies this
      ensures Valid()
      ensures (Snapshot(), resp)
              == Step(old(Snapshot()), now, Op.AddContact(ownerUserId, contactEmail, contactUserId, hours, key, newId))
    {
      StepKeepsInv(Snapshot(), now, Op.AddContact(ownerUserId, contactEmail, contactUserId, hours, key, newId));
      var waitingPeriodHours := if hours.Some? then hours.value else DEFAULT_WAITING_HOURS;
      var existing := FindActive(ownerUserId, contactUserId);
      if existing.Some? {
        var contact := contacts[existing.value];
        contact := contact.(waitingPeriodHours := waitingPeriodHours);
        if Truthy(key) {
          contact := contact.(wrappedVaultKey := key);
        }
        contacts := contacts[existing.value := contact];
        return ContactSaved(existing.value);
      }
      if newId in contacts {
        return DuplicateId;
      }
      contacts := contacts[newId := Contact(ownerUserId, contactEmail, contactUserId, waitingPeriodHours, key, Active)];
      resp := ContactSaved(newId);
    }

    /** Revokes the contact and cancels, one by one, the requests that were pending when the loop began. */
    method RevokeContact(ownerUserId: Id, contactId: Id, now: int) returns (resp: Response)
      requires Valid()
      modifies this
      ensures Valid()
      ensures (Snapshot(), resp) == Step(old(Snapshot()), now, Op.RevokeContact(ownerUserId, contactId))
    {
      StepKeepsInv(Snapshot(), now, Op.RevokeContact(ownerUserId, contactId));
      RevocationIs(Snapshot(), now, ownerUserId, contactId);
      hide Inv, Step;
      if contactId !in contacts || contacts[contactId].ownerUserId != ownerUserId {
        return NotFound;
      }
      contacts := contacts[contactId := contacts[contactId].(status := Revoked, wrappedVaultKey := None)];
      ghost var before := requests;
      var pending := set q | q in requests && IsPendingFor(requests[q], contactId);
      while pending != {}
        invariant contacts
                  == old(contacts[contactId := contacts[contactId].(status := Revoked, wrappedVaultKey := None)])
        invariant requests.Keys == before.Keys
        invariant forall q :: q in before ==>
                    if q in pending then requests[q] == before[q] && IsPendingFor(before[q], contactId)
                    else requests[q] == CancelPending(before, contactId, now)[q]
        decreases pending
      {
        var q :| q in pending;
        requests := requests[q := requests[q].(status := Cancelled, resolvedAt := Some(now))];
        pending := pending - {q};
      }
      AllCancelled(before, requests, contactId, now);
      resp := ContactGone;
    }

    method RequestAccess(contactUserId: Id, contactId: Id, newId: Id, now: int) returns (resp: Response)
      requires Valid()
      modifies this
      ensures Valid()
      ensures (Snapshot(), resp) == Step(old(Snapshot()), now, Op.RequestAccess(contactUserId, contactId, newId))
    {
      StepKeepsInv(Snapshot(), now, Op.RequestAccess(contactUserId, contactId, newId));
      hide Inv;
      if contactId !in contacts || contacts[contactId].contactUserId != contactUserId
          || contacts[contactId].status != Active {
        return NotFound;
      }
      var contact := contacts[contactId];
      var existingPending := FindPending(contactId);
      if existingPending.Some? {
        return RequestExists(existingPending.value);
      }
      if newId in requests {
        return DuplicateId;
      }
      var grantsAt := now + contact.waitingPeriodHours * 3600 * 1000;
      requests := requests[newId :=
        Request(contactId, contact.ownerUserId, contact.contactUserId, Pending, now, grantsAt, None)];
      resp := RequestCreated(newId);
    }

    method DenyRequest(ownerUserId: Id, requestId: Id, now: int) returns (resp: Response)
      requires Valid()
      modifies this
      ensures Valid()
      ensures (Snapshot(), resp) == Step(old(Snapshot()), now, Op.DenyRequest(ownerUserId, requestId))
    {
      StepKeepsInv(Snapshot(), now, Op.DenyRequest(ownerUserId, requestId));
      if requestId !in requests || requests[requestId].ownerUserId != ownerUserId {
        return NotFound;
      }
      if requests[requestId].status != Pending {
        return NotPending;
      }
      requests := requests[requestId := requests[requestId].(status := Denied, resolvedAt := Some(now))];
      resp := RequestDenied;
    }

    method GetRequestStatus(userId: Id, requestId: Id, now: int) returns (resp: Response)
      requires Valid()
      modifies this
      ensures Valid()
      ensures (Snapshot(), resp) == Step(old(Snapshot()), now, Op.GetStatus(userId, requestId))
    {
      StepKeepsInv(Snapshot(), now, Op.GetStatus(userId, requestId));
      if requestId !in requests
          || (requests[requestId].ownerUserId != userId && requests[requestId].contactUserId != userId) {
        return NotFound;
      }
      var req := requests[requestId];
      if req.status == Pending {
        if now >= req.grantsAt {
          req := req.(status := Granted, resolvedAt := Some(now));
          requests := requests[requestId := req];
        }
      }
      assert old(requests)[requestId := req] == requests;
      var wrappedVaultKey := None;
      if req.status == Granted {
        if req.contactId in contacts {
          wrappedVaultKey := contacts[req.contactId].wrappedVaultKey;
        }
      }
      resp := Status(req, wrappedVaultKey);
    }
  }
}
