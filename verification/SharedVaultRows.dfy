/**
 * Shared vaults seen from the members: what any operation does to one member, who may do it, what a user can see,
 * and that a removal removes.
 */
module SharedVaultRows {
  import opened Wrappers
  import opened JavaScript
  import opened Addressees
  import opened SharedVault

  // ---------- One vault and one member ----------

  // An operation on the vault by somebody who is an admin of it at the time.
  predicate ByAdmin(s: State, op: Op, v: Id) {
    && v in s && !op.CreateVault? && op.vaultId == v
    && op.caller in s[v].members && s[v].members[op.caller].role == Admin && s[v].members[op.caller].status != Revoked
  }

  // An admin takes the present member out; the owner stays.
  predicate TakesOut(s: State, op: Op, v: Id, u: Id) {
    ByAdmin(s, op, v) && op.RemoveMember? && op.target == u && u != s[v].ownerUserId && Present(s, v, u)
  }

  predicate Rotates(s: State, op: Op, v: Id) {
    ByAdmin(s, op, v) && op.RotateKeys? && op.keyVersion > s[v].keyVersion
  }

  predicate Adds(s: State, op: Op, v: Id, u: Id) {
    ByAdmin(s, op, v) && op.AddMember? && op.input.userId == u && !Present(s, v, u)
  }

  /** What any operation does to a member: three things, each by an admin only. */
  lemma MemberFate(s: State, op: Op, v: Id, u: Id)
    requires Enabled(s, op) && v in s && u in s[v].members
    ensures
      var m := s[v].members[u];
      var s' := Step(s, op).0;
      v in s' && u in s'[v].members && s'[v].members[u] ==
        if Adds(s, op, v, u) then
          VaultMember(if op.input.role.Some? then op.input.role.value else Viewer, Pending, s[v].keyVersion,
                      op.input.wrappedKeyPayload)
        else if TakesOut(s, op, v, u) then m.(status := Revoked, wrappedKeyPayload := "")
        else if Rotates(s, op, v) && Present(s, v, u) && Names(op.wraps, u) then
          m.(keyVersion := op.keyVersion, wrappedKeyPayload := LastPayload(op.wraps, u))
        else m
  {
    if op.RotateKeys? && op.vaultId == v {
      RewrappedOutcome(s[v].members, op.keyVersion, op.wraps, u);
    }
  }

  /** A new member comes in only by an admin's addition, pending and at the vault's version. */
  lemma MembersAreAdded(s: State, op: Op, v: Id, u: Id)
    requires Enabled(s, op) && v in s && u !in s[v].members
    ensures
      var s' := Step(s, op).0;
      && v in s' && (u in s'[v].members <==> Adds(s, op, v, u))
      && (u in s'[v].members ==>
            s'[v].members[u] == VaultMember(if op.input.role.Some? then op.input.role.value else Viewer, Pending,
                                            s[v].keyVersion, op.input.wrappedKeyPayload))
  {
    if op.RotateKeys? && op.vaultId == v {
      RewrappedOutcome(s[v].members, op.keyVersion, op.wraps, u);
    }
  }

  /** Name and owner of a vault never change; its version changes only to a greater one, by an admin's rotation. */
  lemma VaultFate(s: State, op: Op, v: Id)
    requires Enabled(s, op) && v in s
    ensures
      var s' := Step(s, op).0;
      && v in s' && s'[v].name == s[v].name && s'[v].ownerUserId == s[v].ownerUserId
      && s'[v].keyVersion == if Rotates(s, op, v) then op.keyVersion else s[v].keyVersion
  {
  }

  /** Nobody but an admin gets anything done, and every refusal changes nothing. */
  lemma WhoMay(s: State, op: Op)
    requires !op.CreateVault?
    ensures
      var (s', resp) := Step(s, op);
      var v := op.vaultId;
      if v !in s then s' == s && resp == NotFound
      else if !ByAdmin(s, op, v) then s' == s && resp == Forbidden
      else
        match op
        case AddMember(_, _, input) =>
          if Adds(s, op, v, input.userId) then resp == Added else s' == s && resp == Conflict
        case RemoveMember(_, _, target) =>
          if TakesOut(s, op, v, target) then resp.Removed?
          else s' == s && resp == if target == s[v].ownerUserId then OwnerStays else NotFound
        case RotateKeys(_, _, version, wraps) =>
          if Rotates(s, op, v) then resp == Rotated(version, |wraps|) else s' == s && resp == StaleVersion
  {
  }

  // ---------- A new vault ----------

  // The last entry for a user.
  function LastInput(members: seq<MemberInput>, user: Id): Option<MemberInput> {
    if members == [] then None
    else if members[|members| - 1].userId == user then Some(members[|members| - 1])
    else LastInput(members[..|members| - 1], user)
  }

  // The first entry for a user.
  function FirstInput(members: seq<MemberInput>, user: Id): Option<MemberInput> {
    if members == [] then None
    else if members[0].userId == user then Some(members[0])
    else FirstInput(members[1..], user)
  }

  lemma {:induction false} InvitedExactly(base: map<Id, VaultMember>, owner: Id, members: seq<MemberInput>, u: Id)
    ensures
      var after, input := Invited(base, owner, members), LastInput(members, u);
      if u == owner || input.None? then (u in after <==> u in base) && (u in base ==> after[u] == base[u])
      else u in after && after[u] == VaultMember(RoleOf(input.value), Pending, 1, input.value.wrappedKeyPayload)
  {
    if members != [] {
      InvitedExactly(base, owner, members[..|members| - 1], u);
    }
  }

  lemma {:induction false} OwnerPayloadIsFirst(members: seq<MemberInput>, owner: Id)
    ensures
      var input := FirstInput(members, owner);
      OwnerPayload(members, owner)
      == if input.Some? && input.value.wrappedKeyPayload != "" then input.value.wrappedKeyPayload
         else "owner_wrapped_key"
  {
    if members != [] && members[0].userId != owner {
      OwnerPayloadIsFirst(members[1..], owner);
    }
  }

  lemma {:induction false} TrimmedIsBlank(s: string)
    ensures Trim(s) == "" <==> forall i :: 0 <= i < |s| ==> IsBlank(s[i])
  {
    if s != "" {
      if IsBlank(s[0]) {
        TrimmedIsBlank(s[1..]);
        assert forall i :: 0 < i < |s| ==> s[i] == s[1..][i - 1];
      } else if IsBlank(s[|s| - 1]) {
        TrimmedIsBlank(s[..|s| - 1]);
        assert s[..|s| - 1] != "" ==> s[..|s| - 1][0] == s[0];
      }
    }
  }

  // The name without blanks at either end.
  lemma {:induction false} TrimmedPart(s: string) returns (i: nat, j: nat)
    ensures i <= j <= |s| && Trim(s) == s[i..j]
    ensures forall k :: 0 <= k < |s| && !(i <= k < j) ==> IsBlank(s[k])
    ensures i < j ==> !IsBlank(s[i]) && !IsBlank(s[j - 1])
  {
    hide IsBlank;
    if s == "" {
      i, j := 0, 0;
    } else if IsBlank(s[0]) {
      i, j := TrimmedPart(s[1..]);
      forall k | 0 <= k < |s| && !(i + 1 <= k < j + 1) ensures IsBlank(s[k]) {
        assert k > 0 ==> s[k] == s[1..][k - 1];
      }
      i, j := i + 1, j + 1;
    } else if IsBlank(s[|s| - 1]) {
      i, j := TrimmedPart(s[..|s| - 1]);
      forall k | 0 <= k < |s| && !(i <= k < j) ensures IsBlank(s[k]) {
        assert k < |s| - 1 ==> s[k] == s[..|s| - 1][k];
      }
    } else {
      i, j := 0, |s|;
    }
  }

  /**
   * A new vault: the owner as an accepted admin with the first payload given for the owner, everybody else pending with
   * the last entry given for them, and nobody else; refused exactly for a blank name.
   */
  lemma NewVault(s: State, owner: Id, name: string, members: seq<MemberInput>, v: Id, u: Id)
    requires v !in s
    ensures
      var (s', resp) := Step(s, CreateVault(owner, name, members, v));
      if forall i :: 0 <= i < |name| ==> IsBlank(name[i]) then s' == s && resp == NameRequired
      else
        && resp == Created(v) && v in s' && s' == s[v := s'[v]]
        && s'[v].name == Trim(name) && s'[v].ownerUserId == owner && s'[v].keyVersion == 1
        && var first, last := FirstInput(members, owner), LastInput(members, u);
        && owner in s'[v].members
        && s'[v].members[owner].role == Admin && s'[v].members[owner].status == Accepted
        && s'[v].members[owner].keyVersion == 1
        && s'[v].members[owner].wrappedKeyPayload
           == (if first.Some? && first.value.wrappedKeyPayload != "" then first.value.wrappedKeyPayload
               else "owner_wrapped_key")
        && (u != owner ==>
              && (u in s'[v].members <==> last.Some?)
              && (last.Some? ==>
                    s'[v].members[u] == VaultMember(if last.value.role.Some? then last.value.role.value else Viewer,
                                                    Pending, 1, last.value.wrappedKeyPayload)))
  {
    hide Trim, Invited, OwnerPayload, IsBlank;
    TrimmedIsBlank(name);
    OwnerPayloadIsFirst(members, owner);
    var base := InitialMembers(owner, members);
    InvitedExactly(base, owner, members, u);
    InvitedExactly(base, owner, members, owner);
    if Trim(name) != "" {
      assert Step(s, CreateVault(owner, name, members, v)).0[v]
             == Vault(Trim(name), owner, 1, Invited(base, owner, members));
    }
  }

  // ---------- What a user sees ----------

  /**
   * A removal removes: after the answer the target is revoked without a payload, no admin, not among the remaining,
   * and sees nothing of the vault; everybody else is as before, and the remaining are exactly the present.
   */
  lemma RemovalRemoves(s: State, op: Op)
    requires op.RemoveMember? && Step(s, op).1.Removed?
    ensures
      var (s', resp) := Step(s, op);
      var v, u := op.vaultId, op.target;
      && v in s' && u in s'[v].members && s'[v].members[u].status == Revoked && s'[v].members[u].wrappedKeyPayload == ""
      && u !in resp.remaining && !IsAdmin(s'[v], u) && v !in VaultsFor(s', u) && Details(s', u, v) == Err(Forbidden)
      && s'[v].members.Keys == s[v].members.Keys
      && (forall w :: w in s[v].members && w != u ==> s'[v].members[w] == s[v].members[w])
      && (forall w :: w in resp.remaining <==> w in s[v].members && w != u && s[v].members[w].status != Revoked)
  {
  }

  /** After a rotation a present member sees the new payload if one was given, at the new version. */
  lemma RotationShows(s: State, op: Op, u: Id)
    requires op.RotateKeys? && Step(s, op).1.Rotated? && Present(s, op.vaultId, u)
    ensures
      var s' := Step(s, op).0;
      var v := op.vaultId;
      && v in VaultsFor(s', u) && VaultsFor(s', u)[v].keyVersion == op.keyVersion
      && VaultsFor(s', u)[v].myWrappedKeyPayload
         == if Names(op.wraps, u) then LastPayload(op.wraps, u) else s[v].members[u].wrappedKeyPayload
  {
    MemberFate(s, op, op.vaultId, u);
    VaultFate(s, op, op.vaultId);
  }

  // ---------- Over whole runs ----------

  // Event k took the member out.
  ghost predicate RemovedAt(ops: seq<Op>, states: seq<State>, k: nat, v: Id, u: Id)
    requires |states| == |ops| + 1
  {
    k < |ops| && ops[k].RemoveMember? && ops[k].vaultId == v && ops[k].target == u && Step(states[k], ops[k]).1.Removed?
  }

  /**
   * A member who was removed by a successful call sees nothing of the vault and holds no payload, through any rotations
   * and other operations, until an admin adds the user again.
   */
  lemma RemovedSeesNothing(ops: seq<Op>, states: seq<State>, k: nat, n: nat, v: Id, u: Id)
    requires IsRun(ops, states) && RemovedAt(ops, states, k, v, u) && k < n < |states|
    requires forall i :: k < i < n ==> !Readds(states[i], ops[i], v, u)
    ensures v in states[n] && u in states[n][v].members && states[n][v].members[u].status == Revoked
    ensures states[n][v].members[u].wrappedKeyPayload == "" && v !in VaultsFor(states[n], u)
    ensures Details(states[n], u, v) == Err(Forbidden)
  {
    RemovalRemoves(states[k], ops[k]);
    hide Step;
    assert states[k + 1] == Step(states[k], ops[k]).0;
    RemovedStaysOut(ops, states, k + 1, n, v, u);
  }
}
