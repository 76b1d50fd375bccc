/** Synchronisation of encrypted items: pull, and push with its conflict check before any write. */
module SyncItems {
  import opened Wrappers
  import opened JavaScript

  type Id = string

  datatype Item = Item(
    userId: Id, encryptedBlob: string, nonce: string, version: int, updatedAt: int, isDeleted: bool,
    vaultId: Option<Id>, folderId: Option<Id>)

  // An item as it travels: with its id and without its owner.
  datatype ItemDto = ItemDto(
    id: Id, encryptedBlob: string, nonce: string, version: int, updatedAt: int, isDeleted: bool,
    vaultId: Option<Id>, folderId: Option<Id>)

  type Store = map<Id, Item>

  function ToDto(id: Id, i: Item): ItemDto {
    ItemDto(id, i.encryptedBlob, i.nonce, i.version, i.updatedAt, i.isDeleted, i.vaultId, i.folderId)
  }

  predicate SameContent(dto: ItemDto, i: Item) {
    dto.encryptedBlob == i.encryptedBlob && dto.nonce == i.nonce && dto.isDeleted == i.isDeleted
  }

  // ---------- Push ----------

  predicate Conflicting(s: Store, dto: ItemDto) {
    dto.id in s
    && (dto.version < s[dto.id].version || (dto.version == s[dto.id].version && !SameContent(dto, s[dto.id])))
  }

  function Conflicts(s: Store, batch: seq<ItemDto>): seq<ItemDto> {
    if batch == [] then []
    else
      var dto := batch[|batch| - 1];
      Conflicts(s, batch[..|batch| - 1]) + (if Conflicting(s, dto) then [ToDto(dto.id, s[dto.id])] else [])
  }

  function Saved(s: Store, user: Id, dto: ItemDto, target: Option<Id>): Item {
    var vault := if Truthy(dto.vaultId) then dto.vaultId else target;
    if dto.id in s then
      var i := s[dto.id];
      Item(i.userId, dto.encryptedBlob, dto.nonce, dto.version, dto.updatedAt, dto.isDeleted,
           if Truthy(vault) then vault else i.vaultId,
           if Truthy(dto.folderId) then dto.folderId else i.folderId)
    else
      Item(user, dto.encryptedBlob, dto.nonce, dto.version, dto.updatedAt, dto.isDeleted, vault, dto.folderId)
  }

  function SaveAll(s: Store, user: Id, batch: seq<ItemDto>, target: Option<Id>): Store {
    if batch == [] then s
    else
      var before := SaveAll(s, user, batch[..|batch| - 1], target);
      var dto := batch[|batch| - 1];
      before[dto.id := Saved(before, user, dto, target)]
  }

  /** The store after a push, and the conflicting stored items if there are any. */
  function Push(s: Store, user: Id, batch: seq<ItemDto>, target: Option<Id>): (Store, Option<seq<ItemDto>>) {
    var c := Conflicts(s, batch);
    if c != [] then (s, Some(c)) else (SaveAll(s, user, batch, target), None)
  }

  lemma {:induction false} ConflictFree(s: Store, batch: seq<ItemDto>)
    ensures Conflicts(s, batch) == [] <==> forall k :: 0 <= k < |batch| ==> !Conflicting(s, batch[k])
  {
    if batch != [] {
      ConflictFree(s, batch[..|batch| - 1]);
    }
  }

  lemma PushNew(s: Store, user: Id, dto: ItemDto, target: Option<Id>)
    requires dto.id !in s
    ensures Push(s, user, [dto], target) == (s[dto.id := Saved(s, user, dto, target)], None)
  {
    hide Saved;
    ConflictFree(s, [dto]);
    assert [dto][..0] == [] && SaveAll(s, user, [], target) == s;
  }

  class SyncService {
    var items: Store

    constructor ()
      ensures items == map[]
    {
      items := map[];
    }

    /** The first loop: every entry against the store as it stands. */
    method FindConflicts(batch: seq<ItemDto>) returns (found: seq<ItemDto>)
      ensures found == Conflicts(items, batch)
    {
      found := [];
      for i := 0 to |batch|
        invariant found == Conflicts(items, batch[..i])
      {
        var item := batch[i];
        assert batch[..i + 1][..i] == batch[..i];
        if item.id in items {
          var existing := items[item.id];
          if item.version < existing.version {
            found := found + [ToDto(item.id, existing)];
          } else if item.version == existing.version {
            if item.encryptedBlob != existing.encryptedBlob || item.nonce != existing.nonce
                || item.isDeleted != existing.isDeleted {
              found := found + [ToDto(item.id, existing)];
            }
          }
        }
      }
      assert batch[..|batch|] == batch;
    }

    /** One turn of the second loop. */
    method SaveItem(userId: Id, item: ItemDto, targetVaultId: Option<Id>)
      modifies this
      ensures items == old(items)[item.id := Saved(old(items), userId, item, targetVaultId)]
    {
      var resolvedVaultId := if Truthy(item.vaultId) then item.vaultId else targetVaultId;
      if item.id in items {
        var existing := items[item.id].(
          encryptedBlob := item.encryptedBlob, nonce := item.nonce, version := item.version,
          updatedAt := item.updatedAt, isDeleted := item.isDeleted);
        if Truthy(resolvedVaultId) {
          existing := existing.(vaultId := resolvedVaultId);
        }
        if Truthy(item.folderId) {
          existing := existing.(folderId := item.folderId);
        }
        items := items[item.id := existing];
      } else {
        items := items[item.id := Item(userId, item.encryptedBlob, item.nonce, item.version, item.updatedAt,
                                       item.isDeleted, resolvedVaultId, item.folderId)];
      }
    }

    /** Checks the whole batch against the store as it stands, then saves item by item. */
    method PushItems(userId: Id, batch: seq<ItemDto>, targetVaultId: Option<Id>)
      returns (conflicts: Option<seq<ItemDto>>)
      modifies this
      ensures (items, conflicts) == Push(old(items), userId, batch, targetVaultId)
      ensures conflicts.Some? <==> exists k :: 0 <= k < |batch| && Conflicting(old(items), batch[k])
      ensures conflicts.Some? ==> items == old(items)
    {
      hide Conflicts, Conflicting, Saved;
      var found := FindConflicts(batch);
      ConflictFree(items, batch);
      if |found| > 0 {
        return Some(found);
      }
      for i := 0 to |batch|
        invariant items == SaveAll(old(items), userId, batch[..i], targetVaultId)
      {
        assert batch[..i + 1][..i] == batch[..i];
        SaveItem(userId, batch[i], targetVaultId);
      }
      assert batch[..|batch|] == batch;
      conflicts := None;
    }
  }

  // ---------- What an accepted push leaves for one id ----------

  predicate Mentions(batch: seq<ItemDto>, id: Id) {
    exists k :: 0 <= k < |batch| && batch[k].id == id
  }

  function LastFor(batch: seq<ItemDto>, id: Id): (dto: ItemDto)
    requires Mentions(batch, id)
    ensures dto.id == id && dto in batch
  {
    var n := |batch| - 1;
    if batch[n].id == id then batch[n]
    else
      MentionedBefore(batch, id);
      LastFor(batch[..n], id)
  }

  lemma MentionedBefore(batch: seq<ItemDto>, id: Id)
    requires Mentions(batch, id) && batch[|batch| - 1].id != id
    ensures Mentions(batch[..|batch| - 1], id)
  {
    var k :| 0 <= k < |batch| && batch[k].id == id;
    assert batch[..|batch| - 1][k].id == id;
  }

  // No later entry is for the id.
  lemma {:induction false} LastForIsLast(batch: seq<ItemDto>, id: Id) returns (k: nat)
    requires Mentions(batch, id)
    ensures k < |batch| && batch[k] == LastFor(batch, id) && forall j :: k < j < |batch| ==> batch[j].id != id
  {
    var n := |batch| - 1;
    if batch[n].id == id {
      k := n;
    } else {
      MentionedBefore(batch, id);
      k := LastForIsLast(batch[..n], id);
      forall j | k < j < |batch| ensures batch[j].id != id {
        assert j < n ==> batch[..n][j].id != id;
      }
    }
  }

  /** The last entry for an id decides; ids not mentioned are untouched; an existing item keeps its owner. */
  lemma {:induction false} SaveAllOutcome(s: Store, user: Id, batch: seq<ItemDto>, target: Option<Id>, id: Id)
    ensures
      var s' := SaveAll(s, user, batch, target);
      && (id in s' <==> id in s || Mentions(batch, id))
      && (id in s && !Mentions(batch, id) ==> s'[id] == s[id])
      && (id in s' ==> s'[id].userId == if id in s then s[id].userId else user)
      && (Mentions(batch, id) ==>
            var dto := LastFor(batch, id);
            SameContent(dto, s'[id]) && s'[id].version == dto.version && s'[id].updatedAt == dto.updatedAt)
  {
    if batch != [] {
      var n := |batch| - 1;
      SaveAllOutcome(s, user, batch[..n], target, id);
      if Mentions(batch, id) && batch[n].id != id {
        var k :| 0 <= k < |batch| && batch[k].id == id;
        assert batch[..n][k].id == id;
      }
      if Mentions(batch[..n], id) {
        var k :| 0 <= k < n && batch[..n][k].id == id;
        assert batch[k].id == id;
      }
    }
  }

  // Between two moments: the item is still there with its owner, its version has not fallen, and if the version
  // is the same, only the timestamp and the filing may differ.
  ghost predicate Advanced(i: Item, i': Item) {
    && i'.userId == i.userId
    && i'.version >= i.version
    && (i'.version == i.version ==> i' == i.(updatedAt := i'.updatedAt, vaultId := i'.vaultId, folderId := i'.folderId))
  }

  lemma PushAdvances(s: Store, user: Id, batch: seq<ItemDto>, target: Option<Id>, id: Id)
    requires id in s
    ensures var s' := Push(s, user, batch, target).0; id in s' && Advanced(s[id], s'[id])
  {
    ConflictFree(s, batch);
    SaveAllOutcome(s, user, batch, target, id);
    if Conflicts(s, batch) == [] && Mentions(batch, id) {
      assert !Conflicting(s, LastFor(batch, id));
    }
  }

  /**
   * The owner plays no part in a push, so who pushes does not matter for what becomes of a stored item: it keeps
   * version and content exactly when the push is refused, does not mention it, or ends with the version it has.
   */
  lemma KeptExactly(s: Store, pusher: Id, batch: seq<ItemDto>, target: Option<Id>, id: Id)
    requires id in s
    ensures
      var (s', refused) := Push(s, pusher, batch, target);
      && id in s' && s'[id].userId == s[id].userId
      && (s'[id] == s[id].(updatedAt := s'[id].updatedAt, vaultId := s'[id].vaultId, folderId := s'[id].folderId)
          <==> refused.Some? || !Mentions(batch, id) || LastFor(batch, id).version == s[id].version)
  {
    PushAdvances(s, pusher, batch, target, id);
    SaveAllOutcome(s, pusher, batch, target, id);
  }

  /** Such a push: a stranger's newer version replaces the owner's content. */
  lemma StrangerReplacesContent(owner: Id, stranger: Id)
    requires owner != stranger
    ensures
      var mine := ItemDto("i", "mine", "n", 1, 0, false, None, None);
      var theirs := ItemDto("i", "theirs", "n", 2, 0, false, None, None);
      var s := Push(map[], owner, [mine], None).0;
      var (s', refused) := Push(s, stranger, [theirs], None);
      refused == None && "i" in s' && s'["i"].userId == owner && s'["i"].encryptedBlob == "theirs"
  {
    var mine := ItemDto("i", "mine", "n", 1, 0, false, None, None);
    var theirs := ItemDto("i", "theirs", "n", 2, 0, false, None, None);
    PushNew(map[], owner, mine, None);
    var s := Push(map[], owner, [mine], None).0;
    ConflictFree(s, [theirs]);
    assert [theirs][0].id == "i";
    SaveAllOutcome(s, stranger, [theirs], None, "i");
  }

  // ---------- Whole runs ----------

  datatype PushCall = PushCall(user: Id, batch: seq<ItemDto>, target: Option<Id>)

  function StoreAt(calls: seq<PushCall>, n: nat): Store
    requires n <= |calls|
  {
    if n == 0 then map[]
    else Push(StoreAt(calls, n - 1), calls[n - 1].user, calls[n - 1].batch, calls[n - 1].target).0
  }

  /** Over any run of pushes by anyone, batches that repeat an id included, every item only advances. */
  lemma {:induction false} ItemsOnlyAdvance(calls: seq<PushCall>, m: nat, n: nat, id: Id)
    requires m <= n <= |calls| && id in StoreAt(calls, m)
    ensures id in StoreAt(calls, n) && Advanced(StoreAt(calls, m)[id], StoreAt(calls, n)[id])
  {
    if m < n {
      ItemsOnlyAdvance(calls, m, n - 1, id);
      PushAdvances(StoreAt(calls, n - 1), calls[n - 1].user, calls[n - 1].batch, calls[n - 1].target, id);
    }
  }

  /** Two moments with one version of an item have one content. */
  lemma VersionDeterminesContent(calls: seq<PushCall>, m: nat, n: nat, id: Id)
    requires m <= |calls| && n <= |calls| && id in StoreAt(calls, m) && id in StoreAt(calls, n)
    requires StoreAt(calls, m)[id].version == StoreAt(calls, n)[id].version
    ensures
      var i, i' := StoreAt(calls, m)[id], StoreAt(calls, n)[id];
      i.encryptedBlob == i'.encryptedBlob && i.nonce == i'.nonce && i.isDeleted == i'.isDeleted && i.userId == i'.userId
  {
    if m <= n {
      ItemsOnlyAdvance(calls, m, n, id);
    } else {
      ItemsOnlyAdvance(calls, n, m, id);
    }
  }

  // No entry for the id has a greater version than this.
  ghost predicate Newest(batch: seq<ItemDto>, id: Id, version: int) {
    forall k :: 0 <= k < |batch| && batch[k].id == id ==> batch[k].version <= version
  }

  /**
   * The conflict check looks at the store before the batch, so inside one batch an older entry may follow a newer
   * one and win. An accepted push leaves the newest version of an id exactly when the last entry for the id has it.
   */
  lemma NewestWinsExactly(s: Store, user: Id, batch: seq<ItemDto>, target: Option<Id>, id: Id) returns (last: nat)
    requires Push(s, user, batch, target).1 == None && Mentions(batch, id)
    ensures last < |batch| && batch[last].id == id && forall j :: last < j < |batch| ==> batch[j].id != id
    ensures
      var s' := Push(s, user, batch, target).0;
      id in s' && (Newest(batch, id, s'[id].version) <==> Newest(batch, id, batch[last].version))
  {
    last := LastForIsLast(batch, id);
    SaveAllOutcome(s, user, batch, target, id);
  }

  /** Such a batch: an accepted push of versions 5 and 3 leaves version 3. */
  lemma LaterEntryWinsInsideABatch()
    ensures
      var d5 := ItemDto("i", "five", "n", 5, 0, false, None, None);
      var d3 := ItemDto("i", "three", "n", 3, 0, false, None, None);
      var (s, c) := Push(map[], "u", [d5, d3], None);
      c == None && "i" in s && s["i"].version == 3
  {
    var d5 := ItemDto("i", "five", "n", 5, 0, false, None, None);
    var d3 := ItemDto("i", "three", "n", 3, 0, false, None, None);
    ConflictFree(map[], [d5, d3]);
    SaveAllOutcome(map[], "u", [d5, d3], None, "i");
    assert [d5, d3][1].id == "i";
  }

  // ---------- Pull, and pushing back what was pulled ----------

  /** The rows that a pull selects: the user's own under either name, and those in folders shared with the user. */
  predicate Selected(i: Item, user: Id, userUuid: Id, shared: set<Id>, vaultId: Option<Id>) {
    var own := i.userId == user || i.userId == userUuid;
    if Truthy(vaultId) then
      (own && i.vaultId == vaultId) || (vaultId.value in shared && i.folderId == vaultId)
    else own || (i.folderId.Some? && i.folderId.value in shared)
  }

  function Pull(s: Store, user: Id, userUuid: Id, shared: set<Id>, vaultId: Option<Id>): set<ItemDto> {
    set id | id in s && Selected(s[id], user, userUuid, shared, vaultId) :: ToDto(id, s[id])
  }

  /**
   * Pushing back what a pull returned, in any order and by anyone, with no target vault, is accepted and changes
   * nothing; items shared by other owners stay theirs.
   */
  lemma PushBackIsIdentity(s: Store, user: Id, userUuid: Id, shared: set<Id>, vaultId: Option<Id>, batch: seq<ItemDto>,
                           pusher: Id)
    requires forall k :: 0 <= k < |batch| ==> batch[k] in Pull(s, user, userUuid, shared, vaultId)
    ensures Push(s, pusher, batch, None) == (s, None)
  {
    forall k | 0 <= k < |batch| ensures batch[k].id in s && batch[k] == ToDto(batch[k].id, s[batch[k].id]) {
      assert batch[k] in Pull(s, user, userUuid, shared, vaultId);
    }
    ConflictFree(s, batch);
    SaveBack(s, pusher, batch);
  }

  lemma {:induction false} SaveBack(s: Store, pusher: Id, batch: seq<ItemDto>)
    requires forall k :: 0 <= k < |batch| ==> batch[k].id in s && batch[k] == ToDto(batch[k].id, s[batch[k].id])
    ensures SaveAll(s, pusher, batch, None) == s
  {
    if batch != [] {
      var n := |batch| - 1;
      SaveBack(s, pusher, batch[..n]);
      assert Saved(s, pusher, batch[n], None) == s[batch[n].id];
    }
  }

  /**
   * After an accepted push the pusher's pull shows, for every pushed id that is the pusher's own, the content of the
   * last entry for it.
   */
  lemma PushThenPull(s: Store, user: Id, userUuid: Id, shared: set<Id>, batch: seq<ItemDto>, target: Option<Id>, id: Id)
    requires Push(s, user, batch, target).1 == None && Mentions(batch, id) && (id in s ==> s[id].userId == user)
    ensures
      var s', dto := Push(s, user, batch, target).0, LastFor(batch, id);
      exists shown :: shown in Pull(s', user, userUuid, shared, None)
        && shown.id == id && shown.encryptedBlob == dto.encryptedBlob && shown.nonce == dto.nonce
        && shown.isDeleted == dto.isDeleted && shown.version == dto.version && shown.updatedAt == dto.updatedAt
  {
    SaveAllOutcome(s, user, batch, target, id);
    var s' := Push(s, user, batch, target).0;
    assert ToDto(id, s'[id]) in Pull(s', user, userUuid, shared, None);
  }
}
