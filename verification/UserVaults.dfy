/**
 * A user's vaults and the default-vault rules, and what deleting a vault does to the items. Where the database may
 * answer a query with any of several rows, the row it picks is part of the operation, so every statement holds for
 * all its choices.
 */
module UserVaults {
  import opened Wrappers
  import SyncItems

  type Id = string

  // Salt and wrapped key, and the same for the recovery kit if there is one.
  datatype Keys = Keys(salt: string, wrappedKey: string, recoverySalt: Option<string>,
                       recoveryWrappedKey: Option<string>)

  datatype Vault = Vault(userId: Id, name: string, keys: Keys, isDefault: bool, createdAt: int)

  // `legacy` is the older one-key-per-user table.
  datatype State = State(vaults: map<Id, Vault>, legacy: map<Id, Keys>, items: SyncItems.Store)

  const EMPTY := State(map[], map[], map[])
  const PERSONAL := "Personal Vault"

  datatype Op =
    | GetUserVaults(user: Id, newId: Id, now: int, listed: seq<Id>)
    | CreateUserVault(user: Id, name: string, keys: Keys, isDefault: Option<bool>, newId: Id, now: int)
    | UpdateUserVault(user: Id, vaultId: Id, newName: Option<string>, salt: Option<string>, wrappedKey: Option<string>)
    | DeleteUserVault(user: Id, vaultId: Id)
    | SaveVaultKey(user: Id, keys: Keys, pick: Id, newId: Id, now: int)
    | PushItems(user: Id, batch: seq<SyncItems.ItemDto>, target: Option<Id>)

  datatype Response =
    | Vaults(ids: seq<Id>)
    | VaultSaved(id: Id)
    | Deleted
    | OnlyVault
    | NotFound
    | KeySaved
    | Pushed(conflicts: Option<seq<SyncItems.ItemDto>>)

  // ---------- One step ----------

  function Own(s: State, user: Id): set<Id> {
    set v | v in s.vaults && s.vaults[v].userId == user
  }

  predicate IsDefaultOf(s: State, user: Id, v: Id) {
    v in s.vaults && s.vaults[v].userId == user && s.vaults[v].isDefault
  }

  ghost predicate HasDefault(s: State, user: Id) {
    exists v :: IsDefaultOf(s, user, v)
  }

  // A row that the query for the user's default vault, or else for any of the user's vaults, may return.
  ghost predicate IsTarget(s: State, user: Id, v: Id) {
    v in Own(s, user) && (s.vaults[v].isDefault || !HasDefault(s, user))
  }

  // The user's vaults, each once, the oldest first.
  ghost predicate IsListing(s: State, user: Id, ids: seq<Id>) {
    && (forall v :: v in Own(s, user) ==> v in ids)
    && (forall i :: 0 <= i < |ids| ==> ids[i] in Own(s, user))
    && (forall i, j :: 0 <= i < j < |ids| ==>
          ids[i] != ids[j] && s.vaults[ids[i]].createdAt <= s.vaults[ids[j]].createdAt)
  }

  // Generated ids are new, and the database answers with a row that matches.
  ghost predicate Enabled(s: State, op: Op) {
    match op
    case GetUserVaults(user, newId, _, listed) => newId !in s.vaults && IsListing(s, user, listed)
    case CreateUserVault(_, _, _, _, newId, _) => newId !in s.vaults
    case UpdateUserVault(_, _, _, _, _) => true
    case DeleteUserVault(_, _) => true
    case PushItems(_, _, _) => true
    case SaveVaultKey(user, _, pick, newId, _) => newId !in s.vaults && (Own(s, user) != {} ==> IsTarget(s, user, pick))
  }

  function ClearDefaults(vaults: map<Id, Vault>, user: Id): map<Id, Vault> {
    map v | v in vaults :: if vaults[v].userId == user then vaults[v].(isDefault := false) else vaults[v]
  }

  function Created(s: State, user: Id, name: string, keys: Keys, isDefault: Option<bool>, newId: Id, now: int): State {
    var first := Own(s, user) == {};
    var makeDefault := if isDefault.Some? then isDefault.value else first;
    var vaults := if makeDefault && !first then ClearDefaults(s.vaults, user) else s.vaults;
    s.(vaults := vaults[newId := Vault(user, if name == "" then PERSONAL else name, keys, makeDefault, now)])
  }

  // All items filed under the vault go, whoever owns them.
  function WithoutItemsOf(items: SyncItems.Store, vaultId: Id): SyncItems.Store {
    map i | i in items && items[i].vaultId != Some(vaultId) :: items[i]
  }

  function Step(s: State, op: Op): (State, Response) {
    match op
    case GetUserVaults(user, newId, now, listed) =>
      if Own(s, user) == {} && user in s.legacy then
        (s.(vaults := s.vaults[newId := Vault(user, PERSONAL, s.legacy[user], true, now)]), Vaults([newId]))
      else (s, Vaults(listed))
    case CreateUserVault(user, name, keys, isDefault, newId, now) =>
      (Created(s, user, name, keys, isDefault, newId, now), VaultSaved(newId))
    case UpdateUserVault(user, v, name, salt, wrappedKey) =>
      if v !in Own(s, user) then (s, NotFound)
      else
        var stored := s.vaults[v];
        var keys := stored.keys.(salt := if salt.Some? then salt.value else stored.keys.salt,
                               wrappedKey := if wrappedKey.Some? then wrappedKey.value else stored.keys.wrappedKey);
        (s.(vaults := s.vaults[v := stored.(name := if name.Some? then name.value else stored.name, keys := keys)]),
         VaultSaved(v))
    case DeleteUserVault(user, v) =>
      if |Own(s, user)| <= 1 then (s, OnlyVault)
      else if v !in Own(s, user) then (s, NotFound)
      else (s.(vaults := s.vaults - {v}, items := WithoutItemsOf(s.items, v)), Deleted)
    case SaveVaultKey(user, keys, pick, newId, now) =>
      var s1 :=
        if Own(s, user) == {} then Created(s, user, PERSONAL, keys, Some(true), newId, now)
        else if pick in s.vaults then s.(vaults := s.vaults[pick := s.vaults[pick].(keys := keys)])
        else s;
      (s1.(legacy := s1.legacy[user := keys]), KeySaved)
    case PushItems(user, batch, target) =>
      var (items, conflicts) := SyncItems.Push(s.items, user, batch, target);
      (s.(items := items), Pushed(conflicts))
  }

  // ---------- Invariants over every run ----------

  ghost predicate AtMostOneDefault(s: State) {
    forall u, v, w :: IsDefaultOf(s, u, v) && IsDefaultOf(s, u, w) ==> v == w
  }

  lemma StepKeepsOneDefault(s: State, op: Op)
    requires AtMostOneDefault(s) && Enabled(s, op)
    ensures AtMostOneDefault(Step(s, op).0)
  {
    var s' := Step(s, op).0;
    forall u, v, w | IsDefaultOf(s', u, v) && IsDefaultOf(s', u, w) ensures v == w {
      DefaultBefore(s, op, u, v);
      DefaultBefore(s, op, u, w);
    }
  }

  // A default vault was the default before, or is new and the only default its user can have.
  lemma DefaultBefore(s: State, op: Op, u: Id, v: Id)
    requires Enabled(s, op) && IsDefaultOf(Step(s, op).0, u, v)
    ensures v in s.vaults ==> IsDefaultOf(s, u, v)
    ensures v !in s.vaults ==> forall w :: w in s.vaults ==> !IsDefaultOf(Step(s, op).0, u, w)
  {
    if v !in s.vaults {
      forall w | w in s.vaults ensures !IsDefaultOf(Step(s, op).0, u, w) {
        if s.vaults[w].userId == u {
          assert w in Own(s, u);
        }
      }
    }
  }

  lemma StepKeepsAVault(s: State, op: Op, user: Id)
    requires Enabled(s, op) && Own(s, user) != {}
    ensures Own(Step(s, op).0, user) != {}
  {
    var s' := Step(s, op).0;
    var v :| v in Own(s, user);
    if op.DeleteUserVault? && op.vaultId == v && v !in s'.vaults {
      AnotherElement(Own(s, user), v);
      var w :| w in Own(s, user) && w != v;
      assert w in Own(s', user);
    } else {
      assert v in Own(s', user);
    }
  }

  lemma AnotherElement<T>(s: set<T>, x: T)
    requires x in s && |s| > 1
    ensures exists y :: y in s && y != x
  {
    var t := s - {x};
    assert |t| == |s| - 1;
    var y :| y in t;
  }

  ghost predicate IsRun(ops: seq<Op>, states: seq<State>) {
    && |states| == |ops| + 1 && states[0] == EMPTY
    && forall i :: 0 <= i < |ops| ==> Enabled(states[i], ops[i]) && states[i + 1] == Step(states[i], ops[i]).0
  }

  /** From an empty store, over any run: no user ever has two default vaults. */
  lemma {:induction false} OneDefaultAlways(ops: seq<Op>, states: seq<State>, n: nat)
    requires IsRun(ops, states) && n < |states|
    ensures AtMostOneDefault(states[n])
  {
    if n > 0 {
      OneDefaultAlways(ops, states, n - 1);
      StepKeepsOneDefault(states[n - 1], ops[n - 1]);
    }
  }

  /** ... and a user who once has a vault has one for ever. */
  lemma {:induction false} NeverBackToNone(ops: seq<Op>, states: seq<State>, m: nat, n: nat, user: Id)
    requires IsRun(ops, states) && m <= n < |states| && Own(states[m], user) != {}
    ensures Own(states[n], user) != {}
  {
    if m < n {
      NeverBackToNone(ops, states, m, n - 1, user);
      StepKeepsAVault(states[n - 1], ops[n - 1], user);
    }
  }

  /** No operation of one user touches another user's vaults or legacy key. */
  lemma OthersUntouched(s: State, op: Op, other: Id)
    requires Enabled(s, op) && other != op.user
    ensures Own(Step(s, op).0, other) == Own(s, other)
    ensures forall v :: v in Own(s, other) ==> Step(s, op).0.vaults[v] == s.vaults[v]
    ensures other in s.legacy <==> other in Step(s, op).0.legacy
    ensures other in s.legacy ==> Step(s, op).0.legacy[other] == s.legacy[other]
  {
    if op.SaveVaultKey? && Own(s, op.user) != {} {
      assert op.pick in Own(s, op.user);
    }
  }

  // ---------- Items and the deletion of vaults ----------

  // The operation deletes the vault that the item is filed under.
  predicate DeletesItem(s: State, op: Op, id: Id) {
    && op.DeleteUserVault? && |Own(s, op.user)| > 1 && op.vaultId in Own(s, op.user)
    && id in s.items && s.items[id].vaultId == Some(op.vaultId)
  }

  /** An item goes exactly with its vault, and otherwise only advances. */
  lemma StepOnItem(s: State, op: Op, id: Id)
    requires id in s.items
    ensures id !in Step(s, op).0.items <==> DeletesItem(s, op, id)
    ensures !DeletesItem(s, op, id) ==> SyncItems.Advanced(s.items[id], Step(s, op).0.items[id])
  {
    hide SyncItems.Push;
    if op.PushItems? {
      SyncItems.PushAdvances(s.items, op.user, op.batch, op.target, id);
    }
  }

  /**
   * When a deletion spares everybody else's items: exactly when it is refused, or all that is filed under the vault
   * is the deleting user's own.
   */
  lemma DeletionSparesOthersExactly(s: State, user: Id, v: Id)
    ensures
      (forall id :: id in s.items && s.items[id].userId != user ==> id in Step(s, DeleteUserVault(user, v)).0.items)
      <==> |Own(s, user)| <= 1 || v !in Own(s, user)
           || forall id :: id in s.items && s.items[id].vaultId == Some(v) ==> s.items[id].userId == user
  {
    hide Step;
    forall id | id in s.items
      ensures id !in Step(s, DeleteUserVault(user, v)).0.items <==> DeletesItem(s, DeleteUserVault(user, v), id)
    {
      StepOnItem(s, DeleteUserVault(user, v), id);
    }
  }

  /** Over any run an item keeps its owner and only advances, until somebody deletes the vault it is filed under. */
  lemma {:induction false} ItemsAdvanceUntilDeletion(ops: seq<Op>, states: seq<State>, m: nat, n: nat, id: Id)
    requires IsRun(ops, states) && m <= n < |states| && id in states[m].items
    requires forall k :: m <= k < n ==> !DeletesItem(states[k], ops[k], id)
    ensures id in states[n].items && SyncItems.Advanced(states[m].items[id], states[n].items[id])
  {
    hide Step, DeletesItem;
    if m < n {
      ItemsAdvanceUntilDeletion(ops, states, m, n - 1, id);
      StepOnItem(states[n - 1], ops[n - 1], id);
    }
  }

  /** The owner of the vault need not own the item: what somebody else filed under it goes as well. */
  lemma DeletionTakesOthersItems(owner: Id, other: Id, keys: Keys) returns (ops: seq<Op>, states: seq<State>)
    requires owner != other
    ensures IsRun(ops, states) && |ops| == 4 && ops[3] == DeleteUserVault(owner, "1")
    ensures "i" in states[3].items && states[3].items["i"].userId == other && "i" !in states[4].items
  {
    var item := SyncItems.ItemDto("i", "blob", "nonce", 1, 0, false, Some("1"), None);
    ops := [CreateUserVault(owner, "a", keys, None, "1", 0), CreateUserVault(owner, "b", keys, None, "2", 1),
            PushItems(other, [item], None), DeleteUserVault(owner, "1")];
    var s1 := Step(EMPTY, ops[0]).0;
    var s2 := Step(s1, ops[1]).0;
    var s3 := Step(s2, ops[2]).0;
    states := [EMPTY, s1, s2, s3, Step(s3, ops[3]).0];
    assert Own(s3, owner) == {"1", "2"};
    SyncItems.PushNew(map[], other, item, None);
    StepOnItem(s3, ops[3], "i");
  }

  // ---------- Reading back a saved key ----------

  // A row whose keys a read may return: a default one, or the oldest if there is none.
  ghost predicate IsAnswer(s: State, user: Id, v: Id) {
    v in Own(s, user)
    && (s.vaults[v].isDefault
        || (!HasDefault(s, user) && forall w :: w in Own(s, user) ==> s.vaults[v].createdAt <= s.vaults[w].createdAt))
  }

  ghost predicate AtMostOneVault(s: State, user: Id) {
    forall v, w :: v in Own(s, user) && w in Own(s, user) ==> v == w
  }

  // Whatever the database picks on the write and on the read, the read returns what was written.
  ghost predicate ReadsBack(s: State, user: Id) {
    forall keys, pick, newId, now, answer ::
      var op := SaveVaultKey(user, keys, pick, newId, now);
      Enabled(s, op) && IsAnswer(Step(s, op).0, user, answer) ==> Step(s, op).0.vaults[answer].keys == keys
  }

  lemma SavedKeyIsAnswered(s: State, user: Id, keys: Keys, pick: Id, newId: Id, now: int, answer: Id)
    requires AtMostOneDefault(s) && (HasDefault(s, user) || AtMostOneVault(s, user))
    requires var op := SaveVaultKey(user, keys, pick, newId, now);
             Enabled(s, op) && IsAnswer(Step(s, op).0, user, answer)
    ensures Step(s, SaveVaultKey(user, keys, pick, newId, now)).0.vaults[answer].keys == keys
  {
    var s' := Step(s, SaveVaultKey(user, keys, pick, newId, now)).0;
    if Own(s, user) == {} {
      assert answer == newId by {
        assert answer in s.vaults ==> answer in Own(s, user);
      }
    } else {
      assert answer in Own(s, user);
      if d :| IsDefaultOf(s, user, d) {
        assert IsDefaultOf(s', user, d);
        assert IsDefaultOf(s, user, pick) && IsDefaultOf(s, user, answer);
      }
    }
  }

  // With no default and two vaults, the write may go to one and the read come from the other.
  lemma SavedKeyMayBeMissed(s: State, user: Id, v: Id, w: Id, newId: Id) returns (keys: Keys, pick: Id, answer: Id)
    requires !HasDefault(s, user) && v in Own(s, user) && w in Own(s, user) && v != w && newId !in s.vaults
    ensures var op := SaveVaultKey(user, keys, pick, newId, 0);
            Enabled(s, op) && IsAnswer(Step(s, op).0, user, answer) && Step(s, op).0.vaults[answer].keys != keys
  {
    answer := Oldest(s, Own(s, user));
    pick := if answer == v then w else v;
    keys := s.vaults[answer].keys.(salt := s.vaults[answer].keys.salt + "x");
    var s' := Step(s, SaveVaultKey(user, keys, pick, newId, 0)).0;
    assert Own(s', user) == Own(s, user);
    forall d ensures !IsDefaultOf(s', user, d) {
      assert !IsDefaultOf(s, user, d);
    }
  }

  lemma Oldest(s: State, vs: set<Id>) returns (v: Id)
    requires vs != {} && vs <= s.vaults.Keys
    ensures v in vs && forall w :: w in vs ==> s.vaults[v].createdAt <= s.vaults[w].createdAt
    decreases vs
  {
    var x :| x in vs;
    var rest := vs - {x};
    assert forall w :: w in vs ==> w == x || w in rest;
    if rest == {} {
      v := x;
    } else {
      var u := Oldest(s, rest);
      v := if s.vaults[u].createdAt < s.vaults[x].createdAt then u else x;
    }
  }

  lemma SomeFreshId(ids: set<Id>) returns (id: Id)
    ensures id !in ids
  {
    id := "";
    ghost var rest := ids;
    while id in ids
      invariant forall x :: x in ids && x !in rest ==> |x| < |id|
      invariant rest <= ids && forall x :: x in rest ==> |x| >= |id|
      decreases rest
    {
      var longer := id + "x";
      rest := set x | x in rest && |x| >= |longer|;
      id := longer;
    }
  }

  /**
   * When a saved key is sure to be read back: exactly for a user with a default vault or with at most one vault.
   */
  lemma ReadsBackExactly(s: State, user: Id)
    requires AtMostOneDefault(s)
    ensures ReadsBack(s, user) <==> HasDefault(s, user) || AtMostOneVault(s, user)
  {
    if HasDefault(s, user) || AtMostOneVault(s, user) {
      forall keys, pick, newId, now, answer |
        var op := SaveVaultKey(user, keys, pick, newId, now); Enabled(s, op) && IsAnswer(Step(s, op).0, user, answer)
        ensures Step(s, SaveVaultKey(user, keys, pick, newId, now)).0.vaults[answer].keys == keys
      {
        SavedKeyIsAnswered(s, user, keys, pick, newId, now, answer);
      }
    } else {
      var v, w :| v in Own(s, user) && w in Own(s, user) && v != w;
      var newId := SomeFreshId(s.vaults.Keys);
      var keys, pick, answer := SavedKeyMayBeMissed(s, user, v, w, newId);
    }
  }

  /** The other case is reachable: two vaults created with the default refused. */
  lemma NoDefaultIsReachable(user: Id, keys: Keys) returns (ops: seq<Op>, states: seq<State>)
    ensures IsRun(ops, states) && |ops| == 2
    ensures !HasDefault(states[2], user) && !AtMostOneVault(states[2], user)
  {
    ops := [CreateUserVault(user, "a", keys, Some(false), "1", 0),
            CreateUserVault(user, "b", keys, Some(false), "2", 1)];
    var s1 := Step(EMPTY, ops[0]).0;
    var s2 := Step(s1, ops[1]).0;
    states := [EMPTY, s1, s2];
    assert "1" in Own(s2, user) && "2" in Own(s2, user);
  }

  // ---------- The service ----------

  class UserVaultService {
    var vaults: map<Id, Vault>
    var legacy: map<Id, Keys>
    var items: SyncItems.Store

    ghost function Snapshot(): State
      reads this
    {
      State(vaults, legacy, items)
    }

    constructor ()
      ensures Snapshot() == EMPTY
    {
      vaults, legacy, items := map[], map[], map[];
    }

    function OwnIds(user: Id): (ids: set<Id>)
      reads this
      ensures ids == Own(Snapshot(), user)
    {
      set v | v in vaults && vaults[v].userId == user
    }

    // The query for the user's vaults in the order of their creation.
    method ListOwn(user: Id) returns (ids: seq<Id>)
      ensures IsListing(Snapshot(), user, ids)
    {
      ids := [];
      var rest := OwnIds(user);
      while rest != {}
        invariant rest <= OwnIds(user) && forall v :: v in OwnIds(user) ==> v in ids || v in rest
        invariant forall i :: 0 <= i < |ids| ==> ids[i] in OwnIds(user) && ids[i] !in rest
        invariant forall i, w :: 0 <= i < |ids| && w in rest ==> vaults[ids[i]].createdAt <= vaults[w].createdAt
        invariant forall i, j :: 0 <= i < j < |ids| ==>
                    ids[i] != ids[j] && vaults[ids[i]].createdAt <= vaults[ids[j]].createdAt
        decreases rest
      {
        var first := FindOldest(rest);
        ids := ids + [first];
        rest := rest - {first};
      }
    }

    method FindOldest(vs: set<Id>) returns (first: Id)
      requires vs != {} && vs <= vaults.Keys
      ensures first in vs && forall w :: w in vs ==> vaults[first].createdAt <= vaults[w].createdAt
    {
      first :| first in vs;
      var rest := vs;
      while rest != {}
        invariant first in vs && rest <= vs
        invariant forall w :: w in vs && w !in rest ==> vaults[first].createdAt <= vaults[w].createdAt
        decreases rest
      {
        var w :| w in rest;
        if vaults[w].createdAt < vaults[first].createdAt {
          first := w;
        }
        rest := rest - {w};
      }
    }

    method GetUserVaults(user: Id, newId: Id, now: int) returns (resp: Response, ghost listed: seq<Id>)
      requires newId !in vaults
      modifies this`vaults
      ensures Enabled(old(Snapshot()), Op.GetUserVaults(user, newId, now, listed))
      ensures (Snapshot(), resp) == Step(old(Snapshot()), Op.GetUserVaults(user, newId, now, listed))
      ensures resp.Vaults? && IsListing(Snapshot(), user, resp.ids)
    {
      var ids := ListOwn(user);
      listed := ids;
      if |ids| == 0 {
        assert Own(Snapshot(), user) == {};
        if user in legacy {
          vaults := vaults[newId := Vault(user, PERSONAL, legacy[user], true, now)];
          assert Own(Snapshot(), user) == {newId};
          return Vaults([newId]), listed;
        }
      } else {
        assert ids[0] in Own(Snapshot(), user);
      }
      resp := Vaults(ids);
    }

    method CreateUserVault(user: Id, name: string, keys: Keys, isDefault: Option<bool>, newId: Id, now: int)
      returns (resp: Response)
      requires newId !in vaults
      modifies this`vaults
      ensures (Snapshot(), resp) == Step(old(Snapshot()), Op.CreateUserVault(user, name, keys, isDefault, newId, now))
    {
      var isFirstVault := OwnIds(user) == {};
      var makeDefault := if isDefault.Some? then isDefault.value else isFirstVault;
      if makeDefault && !isFirstVault {
        vaults := ClearDefaults(vaults, user);
      }
      vaults := vaults[newId := Vault(user, if name == "" then PERSONAL else name, keys, makeDefault, now)];
      resp := VaultSaved(newId);
    }

    method UpdateUserVault(user: Id, vaultId: Id, name: Option<string>, salt: Option<string>,
                           wrappedKey: Option<string>)
      returns (resp: Response)
      modifies this
      ensures (Snapshot(), resp) == Step(old(Snapshot()), Op.UpdateUserVault(user, vaultId, name, salt, wrappedKey))
    {
      if vaultId !in OwnIds(user) {
        return NotFound;
      }
      var vault := vaults[vaultId];
      if name.Some? {
        vault := vault.(name := name.value);
      }
      if salt.Some? {
        vault := vault.(keys := vault.keys.(salt := salt.value));
      }
      if wrappedKey.Some? {
        vault := vault.(keys := vault.keys.(wrappedKey := wrappedKey.value));
      }
      vaults := vaults[vaultId := vault];
      resp := VaultSaved(vaultId);
    }

    method DeleteUserVault(user: Id, vaultId: Id) returns (resp: Response)
      modifies this
      ensures (Snapshot(), resp) == Step(old(Snapshot()), Op.DeleteUserVault(user, vaultId))
    {
      if |OwnIds(user)| <= 1 {
        return OnlyVault;
      }
      if vaultId !in OwnIds(user) {
        return NotFound;
      }
      vaults := vaults - {vaultId};
      items := WithoutItemsOf(items, vaultId);
      resp := Deleted;
    }

    /** Writes to the default vault, else to any vault, else to a new default one; `pick` is the row found. */
    method SaveVaultKey(user: Id, keys: Keys, newId: Id, now: int) returns (resp: Response, ghost pick: Id)
      requires newId !in vaults
      modifies this
      ensures Enabled(old(Snapshot()), Op.SaveVaultKey(user, keys, pick, newId, now))
      ensures (Snapshot(), resp) == Step(old(Snapshot()), Op.SaveVaultKey(user, keys, pick, newId, now))
    {
      var found := None;
      if d :| d in vaults && vaults[d].userId == user && vaults[d].isDefault {
        found := Some(d);
        assert IsDefaultOf(Snapshot(), user, d);
      } else {
        assert !HasDefault(Snapshot(), user);
        if v :| v in vaults && vaults[v].userId == user {
          found := Some(v);
        }
      }
      pick := newId;
      if found.Some? {
        pick := found.value;
        assert pick in Own(Snapshot(), user);
        vaults := vaults[found.value := vaults[found.value].(keys := keys)];
      } else {
        assert Own(Snapshot(), user) == {};
        var _ := CreateUserVault(user, PERSONAL, keys, Some(true), newId, now);
      }
      legacy := legacy[user := keys];
      resp := KeySaved;
    }

    /** The default vault's keys, else the oldest vault's; `answer` is that vault. */
    method GetVaultKey(user: Id, newId: Id, now: int) returns (keys: Option<Keys>, ghost answer: Id)
      requires newId !in vaults
      modifies this`vaults
      ensures exists listed :: IsListing(old(Snapshot()), user, listed)
                && Snapshot() == Step(old(Snapshot()), Op.GetUserVaults(user, newId, now, listed)).0
      ensures keys.None? <==> Own(Snapshot(), user) == {}
      ensures keys.Some? ==> IsAnswer(Snapshot(), user, answer) && keys.value == vaults[answer].keys
    {
      var resp, _ := GetUserVaults(user, newId, now);
      var ids := resp.ids;
      answer := newId;
      if |ids| == 0 {
        return None, answer;
      }
      assert ids[0] in Own(Snapshot(), user);
      var i := 0;
      while i < |ids| && !vaults[ids[i]].isDefault
        invariant 0 <= i <= |ids|
        invariant forall k :: 0 <= k < i ==> !vaults[ids[k]].isDefault
      {
        i := i + 1;
      }
      var chosen := if i < |ids| then ids[i] else ids[0];
      if i == |ids| {
        assert !HasDefault(Snapshot(), user) by {
          forall d ensures !IsDefaultOf(Snapshot(), user, d) {
            assert d in Own(Snapshot(), user) ==> d in ids;
          }
        }
      }
      answer := chosen;
      keys := Some(vaults[chosen].keys);
    }
  }
}
