/**
 * Emergency access seen from the rows: what any operation does to one contact or one request, who may do it, and
 * what designating a contact, for the first time or again, is worth to the contact afterwards.
 */
module EmergencyRows {
  import opened Wrappers
  import opened JavaScript
  import opened Emergency

  // ---------- Requests ----------

  // The owner of request q denies it.
  predicate DeniedByOwner(s: State, op: Op, q: Id) {
    q in s.requests && op.DenyRequest? && op.requestId == q && op.ownerUserId == s.requests[q].ownerUserId
  }

  // The owner of contact c revokes it.
  predicate RevokedByOwner(s: State, op: Op, c: Id) {
    c in s.contacts && op.RevokeContact? && op.contactId == c && op.ownerUserId == s.contacts[c].ownerUserId
  }

  // One of the two parties asks about request q.
  predicate AskedByParty(s: State, op: Op, q: Id) {
    q in s.requests && op.GetStatus? && op.requestId == q
    && (op.userId == s.requests[q].ownerUserId || op.userId == s.requests[q].contactUserId)
  }

  /**
   * The life of a request: only a pending one ever changes, by its owner's denial, by the revocation of its contact,
   * or by a party who asks once the waiting period is over.
   */
  lemma RequestFate(s: State, now: int, op: Op, q: Id)
    requires q in s.requests
    ensures
      var r := s.requests[q];
      var s' := Step(s, now, op).0;
      q in s'.requests && s'.requests[q] ==
        if r.status != Pending then r
        else if DeniedByOwner(s, op, q) then r.(status := Denied, resolvedAt := Some(now))
        else if RevokedByOwner(s, op, r.contactId) then r.(status := Cancelled, resolvedAt := Some(now))
        else if AskedByParty(s, op, q) && now >= r.grantsAt then r.(status := Granted, resolvedAt := Some(now))
        else r
  {
    match op {
      case AddContact(_, _, _, _, _, _) =>
      case RevokeContact(_, _) =>
      case RequestAccess(_, _, _) =>
      case DenyRequest(_, _) =>
      case GetStatus(_, _) =>
    }
  }

  // The user behind an active contact asks for access, and no request of that contact is pending.
  ghost predicate MayRequest(s: State, user: Id, c: Id) {
    && c in s.contacts && s.contacts[c].contactUserId == user && s.contacts[c].status == Active
    && forall q :: q in s.requests ==> !(s.requests[q].contactId == c && s.requests[q].status == Pending)
  }

  /** A request comes about only by the contact's own user, and matures after the contact's hours. */
  lemma RequestsAreTheContacts(s: State, now: int, op: Op, q: Id)
    requires q !in s.requests
    ensures
      var (s', resp) := Step(s, now, op);
      && (q in s'.requests <==> op.RequestAccess? && op.newId == q && MayRequest(s, op.contactUserId, op.contactId))
      && (q in s'.requests ==>
            var contact := s.contacts[op.contactId];
            && resp == RequestCreated(q)
            && s'.requests[q] == Request(op.contactId, contact.ownerUserId, op.contactUserId, Pending, now,
                                         now + contact.waitingPeriodHours * 3_600_000, None))
  {
    match op {
      case AddContact(_, _, _, _, _, _) =>
      case RevokeContact(_, _) =>
      case RequestAccess(_, c, _) =>
        if PendingFor(s, c).Some? {
          assert IsPendingFor(s.requests[PendingFor(s, c).value], c);
        } else {
          forall p | p in s.requests ensures !(s.requests[p].contactId == c && s.requests[p].status == Pending) {
            assert !IsPendingFor(s.requests[p], c);
          }
        }
      case DenyRequest(_, _) =>
      case GetStatus(_, _) =>
    }
  }

  // ---------- Contacts ----------

  // The operation designates the active contact c again.
  predicate DesignatesAgain(s: State, op: Op, c: Id) {
    c in s.contacts && op.AddContact? && s.contacts[c].status == Active
    && s.contacts[c].ownerUserId == op.ownerUserId && s.contacts[c].contactUserId == op.contactUserId
  }

  // 72 hours unless others are given.
  function HoursOf(hours: Option<int>): int {
    match hours case Some(h) => h case None => 72
  }

  /**
   * The life of a contact: its owner's revocation takes the key away; designating it again sets the hours, and the
   * key if one is given; nothing else touches it.
   */
  lemma ContactFate(s: State, now: int, op: Op, c: Id)
    requires Inv(s) && c in s.contacts
    ensures
      var contact := s.contacts[c];
      var s' := Step(s, now, op).0;
      c in s'.contacts && s'.contacts[c] ==
        if RevokedByOwner(s, op, c) then contact.(status := Revoked, wrappedVaultKey := None)
        else if DesignatesAgain(s, op, c) then
          contact.(waitingPeriodHours := HoursOf(op.hours),
                   wrappedVaultKey := match op.key
                                      case Some(k) => if k == "" then contact.wrappedVaultKey else Some(k)
                                      case None => contact.wrappedVaultKey)
        else contact
  {
    match op {
      case AddContact(owner, _, user, _, _, _) => OnlyActive(s, owner, user);
      case RevokeContact(_, _) =>
      case RequestAccess(_, _, _) =>
      case DenyRequest(_, _) =>
      case GetStatus(_, _) =>
    }
  }

  // The query for the active contact of a pair finds exactly that one.
  lemma OnlyActive(s: State, owner: Id, user: Id)
    requires ActiveUnique(s)
    ensures forall c :: c in s.contacts ==>
              (ActiveFor(s, owner, user) == Some(c) <==> IsActiveFor(s.contacts[c], owner, user))
  {
    forall c | c in s.contacts && IsActiveFor(s.contacts[c], owner, user) ensures ActiveFor(s, owner, user) == Some(c) {
      assert ActiveFor(s, owner, user).Some?;
    }
  }

  /** A contact comes about only by a designation of a pair without an active one. */
  lemma ContactsAreDesignated(s: State, now: int, op: Op, c: Id)
    requires c !in s.contacts
    ensures
      var (s', resp) := Step(s, now, op);
      && (c in s'.contacts <==>
            && op.AddContact? && op.newId == c
            && forall d :: d in s.contacts ==> !IsActiveFor(s.contacts[d], op.ownerUserId, op.contactUserId))
      && (c in s'.contacts ==>
            && resp == ContactSaved(c)
            && s'.contacts[c] == Contact(op.ownerUserId, op.contactEmail, op.contactUserId, HoursOf(op.hours), op.key,
                                         Active))
  {
    match op {
      case AddContact(owner, _, user, _, _, _) =>
        if ActiveFor(s, owner, user).Some? {
          assert IsActiveFor(s.contacts[ActiveFor(s, owner, user).value], owner, user);
        }
      case RevokeContact(_, _) =>
      case RequestAccess(_, _, _) =>
      case DenyRequest(_, _) =>
      case GetStatus(_, _) =>
    }
  }

  // ---------- Who may do what ----------

  /** Only the owner revokes and denies, only the contact's user asks for access, only the two parties see a request. */
  lemma WhoMay(s: State, now: int, op: Op)
    ensures
      var (s', resp) := Step(s, now, op);
      match op
      case AddContact(_, _, _, _, _, _) => resp.ContactSaved? || (resp == DuplicateId && s' == s)
      case RevokeContact(_, c) => if RevokedByOwner(s, op, c) then resp == ContactGone else resp == NotFound && s' == s
      case RequestAccess(user, c, newId) =>
        if MayRequest(s, user, c)
        then resp == if newId in s.requests then DuplicateId else RequestCreated(newId)
        else
          && s' == s
          && if c in s.contacts && s.contacts[c].contactUserId == user && s.contacts[c].status == Active
             then resp.RequestExists? && resp.id in s.requests && s.requests[resp.id].contactId == c
                  && s.requests[resp.id].status == Pending
             else resp == NotFound
      case DenyRequest(_, q) =>
        if !DeniedByOwner(s, op, q) then resp == NotFound && s' == s
        else if s.requests[q].status != Pending then resp == NotPending && s' == s
        else resp == RequestDenied
      case GetStatus(_, q) =>
        if !AskedByParty(s, op, q) then resp == NotFound && s' == s
        else resp.Status? && q in s'.requests && resp.request == s'.requests[q]
  {
    match op {
      case AddContact(_, _, _, _, _, _) =>
      case RevokeContact(_, _) =>
      case RequestAccess(_, c, _) =>
        if PendingFor(s, c).Some? {
          assert IsPendingFor(s.requests[PendingFor(s, c).value], c);
        } else {
          forall p | p in s.requests ensures !(s.requests[p].contactId == c && s.requests[p].status == Pending) {
            assert !IsPendingFor(s.requests[p], c);
          }
        }
      case DenyRequest(_, _) =>
      case GetStatus(_, _) =>
    }
  }

  // ---------- What a designation is worth ----------

  // The key that the contact asks for at t1 and reads at t, with the request's id q.
  ghost function AskAndRead(s: State, user: Id, c: Id, q: Id, t1: int, t: int): (Response, Response) {
    var (s1, asked) := Step(s, t1, RequestAccess(user, c, q));
    (asked, Step(s1, t, GetStatus(user, q)).1)
  }

  lemma NewRequestReads(s: State, user: Id, c: Id, q: Id, t1: int, t: int)
    requires MayRequest(s, user, c) && q !in s.requests
    ensures
      var (asked, answer) := AskAndRead(s, user, c, q, t1, t);
      && asked == RequestCreated(q) && answer.Status?
      && answer.wrappedVaultKey == if t >= t1 + s.contacts[c].waitingPeriodHours * 3_600_000
                                   then s.contacts[c].wrappedVaultKey else None
  {
    WhoMay(s, t1, RequestAccess(user, c, q));
    RequestsAreTheContacts(s, t1, RequestAccess(user, c, q), q);
  }

  /**
   * A first designation: the contact reads exactly the given key, from the given hours after asking on, 72 if none
   * were given, and nothing before.
   */
  lemma FirstDesignation(s: State, t0: int, t1: int, t: int, op: Op, q: Id)
    requires Inv(s) && op.AddContact? && op.newId !in s.contacts && q !in s.requests
    requires forall c :: c in s.contacts ==> !IsActiveFor(s.contacts[c], op.ownerUserId, op.contactUserId)
    ensures
      var (asked, answer) := AskAndRead(Step(s, t0, op).0, op.contactUserId, op.newId, q, t1, t);
      && asked == RequestCreated(q) && answer.Status?
      && answer.wrappedVaultKey == if t >= t1 + HoursOf(op.hours) * 3_600_000 then op.key else None
  {
    var s1 := Step(s, t0, op).0;
    ContactsAreDesignated(s, t0, op, op.newId);
    forall r | r in s1.requests ensures !(s1.requests[r].contactId == op.newId && s1.requests[r].status == Pending) {
      assert r in s.requests && HasContact(s, s.requests[r]);
      RequestFate(s, t0, op, r);
    }
    hide Step;
    NewRequestReads(s1, op.contactUserId, op.newId, q, t1, t);
  }

  /**
   * Designating an active contact again: it is the same contact; a request made afterwards reads the new key after the
   * new hours, or the key that was there if none or an empty one is given.
   */
  lemma SecondDesignation(s: State, t0: int, t1: int, t: int, op: Op, c: Id, q: Id)
    requires Inv(s) && DesignatesAgain(s, op, c) && MayRequest(s, op.contactUserId, c) && q !in s.requests
    ensures Step(s, t0, op).1 == ContactSaved(c)
    ensures
      var key := if op.key.Some? && op.key.value != "" then op.key else s.contacts[c].wrappedVaultKey;
      var (asked, answer) := AskAndRead(Step(s, t0, op).0, op.contactUserId, c, q, t1, t);
      && asked == RequestCreated(q) && answer.Status?
      && answer.wrappedVaultKey == if t >= t1 + HoursOf(op.hours) * 3_600_000 then key else None
  {
    var s1 := Step(s, t0, op).0;
    OnlyActive(s, op.ownerUserId, op.contactUserId);
    ContactFate(s, t0, op, c);
    assert s1.requests == s.requests;
    hide Step;
    NewRequestReads(s1, op.contactUserId, c, q, t1, t);
  }

  /** A request that runs already keeps its end of waiting, and shows the key of the new designation. */
  lemma SecondDesignationOfAPending(s: State, t0: int, t: int, op: Op, c: Id, q: Id)
    requires Inv(s) && DesignatesAgain(s, op, c)
    requires q in s.requests && s.requests[q].contactId == c && s.requests[q].status == Pending
    ensures
      var key := if op.key.Some? && op.key.value != "" then op.key else s.contacts[c].wrappedVaultKey;
      var answer := Step(Step(s, t0, op).0, t, GetStatus(op.contactUserId, q)).1;
      answer.Status? && answer.wrappedVaultKey == if t >= s.requests[q].grantsAt then key else None
  {
    assert HasContact(s, s.requests[q]);
    ContactFate(s, t0, op, c);
    RequestFate(s, t0, op, q);
  }
}
