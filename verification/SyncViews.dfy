/** What users see of the item store, and what a push answers: pulls, isolation, conflicts and filing. */
module SyncViews {
  import opened Wrappers
  import opened JavaScript
  import opened SyncItems

  // ---------- What a pull shows ----------

  predicate Owns(s: Store, user: Id, userUuid: Id, id: Id) {
    id in s && (s[id].userId == user || s[id].userId == userUuid)
  }

  /** A pull shows stored items as they are: the caller's own, and those in folders shared with the caller. */
  lemma PullIsOwnOrShared(s: Store, user: Id, userUuid: Id, shared: set<Id>, dto: ItemDto)
    ensures dto in Pull(s, user, userUuid, shared, None) <==>
            && dto.id in s && dto == ToDto(dto.id, s[dto.id])
            && (Owns(s, user, userUuid, dto.id) || exists f :: f in shared && s[dto.id].folderId == Some(f))
  {
  }

  /** A pull of one vault shows the own items filed there, and if it is a shared folder, all that is in that folder. */
  lemma PullOfAVault(s: Store, user: Id, userUuid: Id, shared: set<Id>, v: Id, dto: ItemDto)
    requires v != ""
    ensures dto in Pull(s, user, userUuid, shared, Some(v)) <==>
            && dto.id in s && dto == ToDto(dto.id, s[dto.id])
            && ((Owns(s, user, userUuid, dto.id) && s[dto.id].vaultId == Some(v))
                || (v in shared && s[dto.id].folderId == Some(v)))
  {
  }

  /** An empty vault id asks for everything. */
  lemma EmptyVaultIsNone(s: Store, user: Id, userUuid: Id, shared: set<Id>)
    ensures Pull(s, user, userUuid, shared, Some("")) == Pull(s, user, userUuid, shared, None)
  {
    forall dto
      ensures dto in Pull(s, user, userUuid, shared, Some("")) <==> dto in Pull(s, user, userUuid, shared, None)
    {
    }
  }

  // A push by somebody else that names no item of the user's.
  predicate LeavesAlone(s: Store, user: Id, userUuid: Id, call: PushCall) {
    && call.user != user && call.user != userUuid
    && forall k :: 0 <= k < |call.batch| ==> !Owns(s, user, userUuid, call.batch[k].id)
  }

  lemma OthersPushKeepsOwn(s: Store, user: Id, userUuid: Id, call: PushCall, id: Id)
    requires LeavesAlone(s, user, userUuid, call)
    ensures
      var s' := Push(s, call.user, call.batch, call.target).0;
      && (Owns(s', user, userUuid, id) <==> Owns(s, user, userUuid, id))
      && (Owns(s, user, userUuid, id) ==> s'[id] == s[id])
  {
    SaveAllOutcome(s, call.user, call.batch, call.target, id);
  }

  /** While nothing is shared with a user, such a push changes nothing that the user can pull ... */
  lemma PullIsIsolated(s: Store, user: Id, userUuid: Id, call: PushCall, vaultId: Option<Id>)
    requires LeavesAlone(s, user, userUuid, call)
    ensures
      Pull(Push(s, call.user, call.batch, call.target).0, user, userUuid, {}, vaultId)
      == Pull(s, user, userUuid, {}, vaultId)
  {
    hide Push;
    var s' := Push(s, call.user, call.batch, call.target).0;
    forall dto ensures dto in Pull(s', user, userUuid, {}, vaultId) <==> dto in Pull(s, user, userUuid, {}, vaultId) {
      OthersPushKeepsOwn(s, user, userUuid, call, dto.id);
      assert dto in Pull(s, user, userUuid, {}, vaultId) ==> Owns(s, user, userUuid, dto.id);
      assert dto in Pull(s', user, userUuid, {}, vaultId) ==> Owns(s', user, userUuid, dto.id);
    }
  }

  /** ... and neither does any number of them. */
  lemma {:induction false} RunsAreIsolated(calls: seq<PushCall>, m: nat, n: nat, user: Id, userUuid: Id,
                                           vaultId: Option<Id>)
    requires m <= n <= |calls|
    requires forall k :: m <= k < n ==> LeavesAlone(StoreAt(calls, k), user, userUuid, calls[k])
    ensures Pull(StoreAt(calls, n), user, userUuid, {}, vaultId) == Pull(StoreAt(calls, m), user, userUuid, {}, vaultId)
  {
    hide Pull, Push, LeavesAlone;
    if m < n {
      RunsAreIsolated(calls, m, n - 1, user, userUuid, vaultId);
      PullIsIsolated(StoreAt(calls, n - 1), user, userUuid, calls[n - 1], vaultId);
    }
  }

  // ---------- What a push answers ----------

  /** Accepted exactly if every entry is new, newer than the stored item, or the same content at the same version. */
  lemma AcceptedExactly(s: Store, user: Id, batch: seq<ItemDto>, target: Option<Id>)
    ensures Push(s, user, batch, target).1.None? <==>
            forall k :: 0 <= k < |batch| && batch[k].id in s ==>
              var stored := s[batch[k].id];
              || batch[k].version > stored.version
              || (batch[k].version == stored.version && batch[k].encryptedBlob == stored.encryptedBlob
                  && batch[k].nonce == stored.nonce && batch[k].isDeleted == stored.isDeleted)
  {
    ConflictFree(s, batch);
  }

  // The places of the conflicting entries, in order.
  ghost predicate Places(s: Store, batch: seq<ItemDto>, at: seq<nat>) {
    && (forall i, j :: 0 <= i < j < |at| ==> at[i] < at[j])
    && (forall k: nat :: k in at <==> k < |batch| && Conflicting(s, batch[k]))
  }

  // What is shown is the stored item of each of these entries.
  ghost predicate ShowsStored(s: Store, batch: seq<ItemDto>, at: seq<nat>, shown: seq<ItemDto>) {
    && |shown| == |at|
    && forall i :: 0 <= i < |at| ==>
         at[i] < |batch| && batch[at[i]].id in s && shown[i] == ToDto(batch[at[i]].id, s[batch[at[i]].id])
  }

  /** A refusal shows the stored items of exactly the conflicting entries, in the order of the batch. */
  lemma {:induction false} RefusalShowsStored(s: Store, batch: seq<ItemDto>) returns (at: seq<nat>)
    ensures Places(s, batch, at) && ShowsStored(s, batch, at, Conflicts(s, batch))
  {
    at := [];
    if batch != [] {
      var n := |batch| - 1;
      var before := RefusalShowsStored(s, batch[..n]);
      at := if Conflicting(s, batch[n]) then before + [n] else before;
      OneMorePlace(s, batch, before, at);
      hide Conflicting, Places;
      assert forall i :: 0 <= i < |before| ==> batch[before[i]] == batch[..n][before[i]];
    }
  }

  lemma OneMorePlace(s: Store, batch: seq<ItemDto>, before: seq<nat>, at: seq<nat>)
    requires batch != [] && Places(s, batch[..|batch| - 1], before)
    requires at == if Conflicting(s, batch[|batch| - 1]) then before + [|batch| - 1] else before
    ensures Places(s, batch, at)
    ensures Conflicting(s, batch[|batch| - 1]) ==> batch[|batch| - 1].id in s
  {
    hide Conflicting;
    var n := |batch| - 1;
    ConflictIsStored(s, batch[n]);
    forall i | 0 <= i < |before| ensures before[i] < n {
      assert before[i] in before;
    }
    forall k: nat ensures k in at <==> k < |batch| && Conflicting(s, batch[k]) {
      assert k < n ==> batch[..n][k] == batch[k];
      assert k in at <==> k in before || (k == n && Conflicting(s, batch[n]));
    }
  }

  lemma ConflictIsStored(s: Store, dto: ItemDto)
    ensures Conflicting(s, dto) ==> dto.id in s
  {
  }

  // ---------- Where a pushed item is filed ----------

  // The vault that the last entry for the id that names one names.
  function LastVault(batch: seq<ItemDto>, id: Id): Option<Id> {
    if batch == [] then None
    else
      var dto := batch[|batch| - 1];
      if dto.id == id && dto.vaultId.Some? && dto.vaultId.value != "" then dto.vaultId
      else LastVault(batch[..|batch| - 1], id)
  }

  function LastFolder(batch: seq<ItemDto>, id: Id): Option<Id> {
    if batch == [] then None
    else
      var dto := batch[|batch| - 1];
      if dto.id == id && dto.folderId.Some? && dto.folderId.value != "" then dto.folderId
      else LastFolder(batch[..|batch| - 1], id)
  }

  /**
   * An entry that names a vault or folder moves the item there; one that names none moves it to the target vault, if
   * the push has one, and otherwise leaves it where it is.
   */
  lemma {:induction false} FiledWhere(s: Store, user: Id, batch: seq<ItemDto>, target: Option<Id>, id: Id)
    requires Mentions(batch, id)
    ensures
      var s', last := SaveAll(s, user, batch, target), LastFor(batch, id);
      && id in s'
      && s'[id].vaultId == (
           if last.vaultId.Some? && last.vaultId.value != "" then last.vaultId
           else if target.Some? && target.value != "" then target
           else if LastVault(batch, id).Some? then LastVault(batch, id)
           else if id in s then s[id].vaultId
           else target)
      && (LastFolder(batch, id).Some? ==> s'[id].folderId == LastFolder(batch, id))
      && (LastFolder(batch, id).None? ==>
            if id in s then s'[id].folderId == s[id].folderId else !Truthy(s'[id].folderId))
  {
    var n := |batch| - 1;
    if batch[n].id != id {
      MentionedBefore(batch, id);
      FiledWhere(s, user, batch[..n], target, id);
    } else if Mentions(batch[..n], id) {
      LastNames(batch[..n], id);
      FiledWhere(s, user, batch[..n], target, id);
    } else {
      NotNamed(batch[..n], id);
      SaveAllOutcome(s, user, batch[..n], target, id);
    }
  }

  lemma {:induction false} LastNames(batch: seq<ItemDto>, id: Id)
    requires Mentions(batch, id)
    ensures Truthy(LastFor(batch, id).vaultId) ==> LastVault(batch, id) == LastFor(batch, id).vaultId
  {
    if batch[|batch| - 1].id != id {
      MentionedBefore(batch, id);
      LastNames(batch[..|batch| - 1], id);
    }
  }

  lemma {:induction false} NotNamed(batch: seq<ItemDto>, id: Id)
    requires !Mentions(batch, id)
    ensures LastVault(batch, id).None? && LastFolder(batch, id).None?
  {
    if batch != [] {
      var n := |batch| - 1;
      assert batch[n].id != id;
      forall k | 0 <= k < n ensures batch[..n][k].id != id {
        assert batch[k].id != id;
      }
      NotNamed(batch[..n], id);
    }
  }
}
