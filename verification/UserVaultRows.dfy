/** User vaults seen from the rows: what any operation does to one vault or one older key, and what it answers. */
module UserVaultRows {
  import opened Wrappers
  import opened UserVaults
  import SyncItems

  // ---------- One vault ----------

  // The user makes another vault the default one.
  predicate TakesDefault(s: State, op: Op, v: Id) {
    v in s.vaults && op.CreateUserVault? && op.user == s.vaults[v].userId && op.isDefault == Some(true)
  }

  predicate Deletes(s: State, op: Op, v: Id) {
    op.DeleteUserVault? && op.vaultId == v && v in Own(s, op.user) && |Own(s, op.user)| > 1
  }

  function Updated(vault: Vault, newName: Option<string>, salt: Option<string>, wrappedKey: Option<string>): Vault {
    vault.(name := if newName.Some? then newName.value else vault.name,
           keys := vault.keys.(salt := if salt.Some? then salt.value else vault.keys.salt,
                               wrappedKey := if wrappedKey.Some? then wrappedKey.value else vault.keys.wrappedKey))
  }

  /** What any operation does to a vault: only its own user's operations do anything at all. */
  lemma VaultFate(s: State, op: Op, v: Id)
    requires Enabled(s, op) && v in s.vaults
    ensures v !in Step(s, op).0.vaults <==> Deletes(s, op, v)
    ensures
      var vault, s' := s.vaults[v], Step(s, op).0;
      v in s'.vaults ==>
        s'.vaults[v] == if op.user != vault.userId then vault
                        else if TakesDefault(s, op, v) then vault.(isDefault := false)
                        else if op.UpdateUserVault? && op.vaultId == v then
                          Updated(vault, op.newName, op.salt, op.wrappedKey)
                        else if op.SaveVaultKey? && op.pick == v then vault.(keys := op.keys)
                        else vault
  {
    assert v in Own(s, s.vaults[v].userId);
    if op.SaveVaultKey? && Own(s, op.user) != {} {
      assert op.pick in Own(s, op.user);
    }
  }

  /**
   * How a vault comes about: by creation, by the first list of a user with an older key and no vault, or by saving a
   * key with no vault; each time with the keys that belong to it.
   */
  lemma NewVault(s: State, op: Op, v: Id)
    requires Enabled(s, op) && v !in s.vaults
    ensures
      var s' := Step(s, op).0;
      var none := Own(s, op.user) == {};
      if op.GetUserVaults? && op.newId == v && none && op.user in s.legacy then
        v in s'.vaults && s'.vaults[v] == Vault(op.user, "Personal Vault", s.legacy[op.user], true, op.now)
      else if op.CreateUserVault? && op.newId == v then
        v in s'.vaults
        && s'.vaults[v] == Vault(op.user, if op.name == "" then "Personal Vault" else op.name, op.keys,
                                 op.isDefault == Some(true) || (op.isDefault.None? && none), op.now)
      else if op.SaveVaultKey? && op.newId == v && none then
        v in s'.vaults && s'.vaults[v] == Vault(op.user, "Personal Vault", op.keys, true, op.now)
      else v !in s'.vaults
  {
    if op.SaveVaultKey? && Own(s, op.user) != {} {
      assert op.pick in Own(s, op.user);
    }
  }

  /** The older table changes only by saving a key, for the user who saves it. */
  lemma LegacyFate(s: State, op: Op, user: Id)
    ensures
      var s' := Step(s, op).0;
      if op.SaveVaultKey? && op.user == user then user in s'.legacy && s'.legacy[user] == op.keys
      else (user in s'.legacy <==> user in s.legacy) && (user in s.legacy ==> s'.legacy[user] == s.legacy[user])
  {
  }

  /** Items change only by pushes and by the deletion of the vault they are filed under. */
  lemma ItemsFate(s: State, op: Op, id: Id)
    ensures
      var s' := Step(s, op).0;
      match op
      case PushItems(user, batch, target) => s'.items == SyncItems.Push(s.items, user, batch, target).0
      case _ =>
        && (id in s'.items <==> id in s.items && !DeletesItem(s, op, id))
        && (id in s'.items ==> s'.items[id] == s.items[id])
  {
  }

  // ---------- What is answered ----------

  /** A list shows exactly the user's vaults, oldest first; changes and deletions are for the user's own vaults. */
  lemma Answers(s: State, op: Op)
    requires Enabled(s, op)
    ensures
      var (s', resp) := Step(s, op);
      match op
      case GetUserVaults(user, _, _, _) => resp.Vaults? && IsListing(s', user, resp.ids)
      case CreateUserVault(user, _, _, _, newId, _) => resp == VaultSaved(newId) && newId in Own(s', user)
      case UpdateUserVault(user, v, _, _, _) =>
        if v in s.vaults && s.vaults[v].userId == user then resp == VaultSaved(v) else resp == NotFound && s' == s
      case DeleteUserVault(user, v) =>
        if Deletes(s, op, v) then resp == Deleted
        else s' == s && resp == if |Own(s, user)| <= 1 then OnlyVault else NotFound
      case SaveVaultKey(_, _, _, _, _) => resp == KeySaved
      case PushItems(user, batch, target) => resp == Pushed(SyncItems.Push(s.items, user, batch, target).1)
  {
    match op {
      case GetUserVaults(user, newId, _, listed) =>
        var s' := Step(s, op).0;
        if Own(s, user) == {} && user in s.legacy {
          assert Own(s', user) == {newId};
        }
      case _ =>
    }
  }

  /** A user who comes from the older table finds the same key behind the first vault. */
  lemma OlderKeyIsKept(s: State, user: Id, newId: Id, now: int, v: Id)
    requires user in s.legacy && Own(s, user) == {} && newId !in s.vaults
    ensures
      var (s', resp) := Step(s, GetUserVaults(user, newId, now, []));
      && resp == Vaults([newId]) && (IsAnswer(s', user, v) <==> v == newId)
      && newId in s'.vaults && s'.vaults[newId].keys == s.legacy[user]
  {
    var s' := Step(s, GetUserVaults(user, newId, now, [])).0;
    assert Own(s', user) == {newId};
  }
}
