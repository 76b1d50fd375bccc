/** Shared vaults: membership, removal and key rotation. */
module SharedVault {
  import opened Wrappers
  import opened JavaScript
  import opened Addressees

  type Id = string

  datatype Role = Admin | Member | Viewer
  datatype MemberStatus = Accepted | Pending | Revoked
  datatype VaultMember = VaultMember(role: Role, status: MemberStatus, keyVersion: int, wrappedKeyPayload: string)
  datatype Vault = Vault(name: string, ownerUserId: Id, keyVersion: int, members: map<Id, VaultMember>)

  type State = map<Id, Vault>

  datatype MemberInput = MemberInput(userId: Id, role: Option<Role>, wrappedKeyPayload: string)
  type Wrap = Addressed<string>

  const OWNER_KEY := "owner_wrapped_key"

  datatype Op =
    | CreateVault(owner: Id, name: string, members: seq<MemberInput>, newId: Id)
    | AddMember(caller: Id, vaultId: Id, input: MemberInput)
    | RemoveMember(caller: Id, vaultId: Id, target: Id)
    | RotateKeys(caller: Id, vaultId: Id, keyVersion: int, wraps: seq<Wrap>)

  datatype Response =
    | Created(vaultId: Id)
    | Added
    | Removed(remaining: set<Id>)
    | Rotated(keyVersion: int, updated: nat)
    | NameRequired
    | NotFound
    | Forbidden
    | Conflict
    | OwnerStays
    | StaleVersion

  // ---------- One step ----------

  function Trim(s: string): string {
    if s == "" then ""
    else if IsBlank(s[0]) then Trim(s[1..])
    else if IsBlank(s[|s| - 1]) then Trim(s[..|s| - 1])
    else s
  }

  // The payload that the caller gave for the owner: the first entry counts, and an empty one does not.
  function OwnerPayload(members: seq<MemberInput>, owner: Id): string {
    if members == [] then OWNER_KEY
    else if members[0].userId == owner then
      if members[0].wrappedKeyPayload != "" then members[0].wrappedKeyPayload else OWNER_KEY
    else OwnerPayload(members[1..], owner)
  }

  function RoleOf(input: MemberInput): Role {
    if input.role.Some? then input.role.value else Viewer
  }

  function InitialMembers(owner: Id, members: seq<MemberInput>): map<Id, VaultMember> {
    map[owner := VaultMember(Admin, Accepted, 1, OwnerPayload(members, owner))]
  }

  function Invited(base: map<Id, VaultMember>, owner: Id, members: seq<MemberInput>): map<Id, VaultMember> {
    if members == [] then base
    else
      var before, m := Invited(base, owner, members[..|members| - 1]), members[|members| - 1];
      if m.userId == owner then before
      else before[m.userId := VaultMember(RoleOf(m), Pending, 1, m.wrappedKeyPayload)]
  }

  function Rewrapped(members: map<Id, VaultMember>, version: int, wraps: seq<Wrap>): map<Id, VaultMember> {
    if wraps == [] then members
    else
      var before, w := Rewrapped(members, version, wraps[..|wraps| - 1]), wraps[|wraps| - 1];
      if w.userId in before && before[w.userId].status != Revoked then
        before[w.userId := before[w.userId].(keyVersion := version, wrappedKeyPayload := w.payload)]
      else before
  }

  predicate IsAdmin(v: Vault, user: Id) {
    user in v.members && v.members[user].status != Revoked && v.members[user].role == Admin
  }

  function Step(s: State, op: Op): (State, Response) {
    match op
    case CreateVault(owner, name, members, newId) =>
      if Trim(name) == "" then (s, NameRequired)
      else
        (s[newId := Vault(Trim(name), owner, 1, Invited(InitialMembers(owner, members), owner, members))],
         Created(newId))
    case AddMember(caller, v, input) =>
      if v !in s then (s, NotFound)
      else if !IsAdmin(s[v], caller) then (s, Forbidden)
      else if input.userId in s[v].members && s[v].members[input.userId].status != Revoked then (s, Conflict)
      else
        var m := VaultMember(RoleOf(input), Pending, s[v].keyVersion, input.wrappedKeyPayload);
        (s[v := s[v].(members := s[v].members[input.userId := m])], Added)
    case RemoveMember(caller, v, target) =>
      if v !in s then (s, NotFound)
      else if !IsAdmin(s[v], caller) then (s, Forbidden)
      else if target == s[v].ownerUserId then (s, OwnerStays)
      else if target !in s[v].members || s[v].members[target].status == Revoked then (s, NotFound)
      else
        var members := s[v].members[target := s[v].members[target].(status := Revoked, wrappedKeyPayload := "")];
        (s[v := s[v].(members := members)], Removed(Remaining(members)))
    case RotateKeys(caller, v, version, wraps) =>
      if v !in s then (s, NotFound)
      else if !IsAdmin(s[v], caller) then (s, Forbidden)
      else if version <= s[v].keyVersion then (s, StaleVersion)
      else
        (s[v := s[v].(keyVersion := version, members := Rewrapped(s[v].members, version, wraps))],
         Rotated(version, |wraps|))
  }

  function Remaining(members: map<Id, VaultMember>): set<Id> {
    set u | u in members && members[u].status != Revoked
  }

  // ---------- What a rotation does to each member ----------

  /** Exactly the named members that are not revoked get the new version and the last payload given for them. */
  lemma {:induction false} RewrappedOutcome(members: map<Id, VaultMember>, version: int, wraps: seq<Wrap>, user: Id)
    ensures
      var after := Rewrapped(members, version, wraps);
      && after.Keys == members.Keys
      && (user in members ==>
            after[user] ==
              if members[user].status != Revoked && Names(wraps, user)
              then members[user].(keyVersion := version, wrappedKeyPayload := LastPayload(wraps, user))
              else members[user])
  {
    if wraps != [] {
      var n := |wraps| - 1;
      RewrappedOutcome(members, version, wraps[..n], user);
      NamesLast(wraps, user);
    }
  }

  lemma {:induction false} InvitedOutcome(base: map<Id, VaultMember>, owner: Id, members: seq<MemberInput>, user: Id)
    ensures
      var after := Invited(base, owner, members);
      && base.Keys <= after.Keys
      && (owner in base ==> after[owner] == base[owner])
      && (user in after && user !in base ==> after[user].status == Pending && after[user].keyVersion == 1)
      && (user in base && user != owner ==>
          after[user] == base[user] || (after[user].status == Pending && after[user].keyVersion == 1))
  {
    if members != [] {
      InvitedOutcome(base, owner, members[..|members| - 1], user);
    }
  }

  // ---------- Invariants ----------

  ghost predicate VaultInv(v: Vault) {
    && v.ownerUserId in v.members
    && v.members[v.ownerUserId].role == Admin && v.members[v.ownerUserId].status == Accepted
    && forall u :: u in v.members ==> MemberInv(v, v.members[u])
  }

  ghost predicate MemberInv(v: Vault, m: VaultMember) {
    m.keyVersion <= v.keyVersion && (m.status == Revoked ==> m.wrappedKeyPayload == "")
  }

  /** The owner is an accepted admin, no member is ahead of the vault, and revoked members hold no key. */
  ghost predicate Inv(s: State) {
    forall v :: v in s ==> VaultInv(s[v])
  }

  // A vault from one moment to a later one: same owner, no version falls, nobody disappears.
  ghost predicate Later(v: Vault, v': Vault) {
    && v'.ownerUserId == v.ownerUserId && v'.keyVersion >= v.keyVersion
    && forall u :: u in v.members ==> u in v'.members && v'.members[u].keyVersion >= v.members[u].keyVersion
  }

  ghost predicate Enabled(s: State, op: Op) {
    op.CreateVault? ==> op.newId !in s
  }

  lemma StepKeepsInv(s: State, op: Op)
    requires Inv(s)
    ensures Inv(Step(s, op).0)
  {
    match op {
      case CreateVault(owner, name, members, newId) =>
        var v := Vault(Trim(name), owner, 1, Invited(InitialMembers(owner, members), owner, members));
        forall u ensures u in v.members ==> MemberInv(v, v.members[u]) {
          InvitedOutcome(InitialMembers(owner, members), owner, members, u);
        }
        InvitedOutcome(InitialMembers(owner, members), owner, members, owner);
        assert VaultInv(v);
      case AddMember(_, _, _) =>
      case RemoveMember(_, _, _) =>
      case RotateKeys(caller, v, version, wraps) =>
        if v in s && IsAdmin(s[v], caller) && version > s[v].keyVersion {
          var v' := s[v].(keyVersion := version, members := Rewrapped(s[v].members, version, wraps));
          forall u ensures u in v'.members ==> MemberInv(v', v'.members[u]) {
            RewrappedOutcome(s[v].members, version, wraps, u);
            assert u in s[v].members ==> MemberInv(s[v], s[v].members[u]);
          }
          RewrappedOutcome(s[v].members, version, wraps, s[v].ownerUserId);
          assert VaultInv(v');
        }
    }
  }

  lemma StepIsLater(s: State, op: Op, v: Id)
    requires Inv(s) && Enabled(s, op) && v in s
    ensures v in Step(s, op).0 && Later(s[v], Step(s, op).0[v])
    ensures op.RotateKeys? && op.vaultId == v && Step(s, op).1.Rotated? ==>
            Step(s, op).0[v].keyVersion > s[v].keyVersion
  {
    if op.RotateKeys? && op.vaultId == v {
      forall u | u in s[v].members ensures MemberInv(s[v], s[v].members[u]) {
      }
      forall u { RewrappedOutcome(s[v].members, op.keyVersion, op.wraps, u); }
    }
  }

  /** Only a present admin changes a vault, and the only way back for a revoked member is to be added again. */
  lemma StepAuthority(s: State, op: Op, v: Id, u: Id)
    requires Enabled(s, op) && v in s
    ensures
      var s' := Step(s, op).0;
      && v in s'
      && (s'[v] != s[v] ==> !op.CreateVault? && op.vaultId == v && IsAdmin(s[v], op.caller))
      && (u in s[v].members && s[v].members[u].status == Revoked ==>
            u in s'[v].members && (s'[v].members[u] == s[v].members[u] || Readds(s, op, v, u)))
  {
    if op.RotateKeys? && op.vaultId == v {
      RewrappedOutcome(s[v].members, op.keyVersion, op.wraps, u);
    }
  }

  ghost predicate Readds(s: State, op: Op, v: Id, u: Id) {
    op.AddMember? && op.vaultId == v && op.input.userId == u && v in s && IsAdmin(s[v], op.caller)
        && Step(s, op).1 == Added
  }

  // ---------- Whole runs ----------

  ghost predicate IsRun(ops: seq<Op>, states: seq<State>) {
    && |states| == |ops| + 1 && states[0] == map[]
    && forall i :: 0 <= i < |ops| ==> Enabled(states[i], ops[i]) && states[i + 1] == Step(states[i], ops[i]).0
  }

  lemma {:induction false} InvAlways(ops: seq<Op>, states: seq<State>, n: nat)
    requires IsRun(ops, states) && n < |states|
    ensures Inv(states[n])
  {
    if n > 0 {
      InvAlways(ops, states, n - 1);
      StepKeepsInv(states[n - 1], ops[n - 1]);
    }
  }

  lemma LaterTransitive(v: Vault, w: Vault, x: Vault)
    requires Later(v, w) && Later(w, x)
    ensures Later(v, x)
  {
  }

  /** Over any run versions never fall, and each rotation raises the vault's. */
  lemma {:induction false} VersionsRise(ops: seq<Op>, states: seq<State>, m: nat, n: nat, v: Id)
    requires IsRun(ops, states) && m <= n < |states| && v in states[m]
    ensures v in states[n] && Later(states[m][v], states[n][v])
    ensures
      (exists k :: m <= k < n && IsRotation(ops, states, k, v)) ==> states[n][v].keyVersion > states[m][v].keyVersion
  {
    hide Step, Inv;
    if m < n {
      VersionsRise(ops, states, m, n - 1, v);
      InvAlways(ops, states, n - 1);
      StepIsLater(states[n - 1], ops[n - 1], v);
      LaterTransitive(states[m][v], states[n - 1][v], states[n][v]);
      if k :| m <= k < n && IsRotation(ops, states, k, v) && k < n - 1 {
        assert IsRotation(ops, states, k, v);
      }
    }
  }

  ghost predicate IsRotation(ops: seq<Op>, states: seq<State>, k: nat, v: Id)
    requires |states| == |ops| + 1
  {
    k < |ops| && ops[k].RotateKeys? && ops[k].vaultId == v && Step(states[k], ops[k]).1.Rotated?
  }

  /**
   * A removed member stays locked out: through any number of rotations and other operations the member keeps no
   * payload, unless somewhere in between a present admin added the member again.
   */
  lemma {:induction false} RemovedStaysOut(ops: seq<Op>, states: seq<State>, m: nat, n: nat, v: Id, u: Id)
    requires IsRun(ops, states) && m <= n < |states|
    requires v in states[m] && u in states[m][v].members && states[m][v].members[u].status == Revoked
    ensures v in states[n] && u in states[n][v].members
    ensures
      || (states[n][v].members[u] == states[m][v].members[u] && states[n][v].members[u].wrappedKeyPayload == "")
      || exists k :: m <= k < n && Readds(states[k], ops[k], v, u)
  {
    hide Step;
    InvAlways(ops, states, m);
    if m < n {
      RemovedStaysOut(ops, states, m, n - 1, v, u);
      InvAlways(ops, states, n - 1);
      VersionsRise(ops, states, n - 1, n, v);
      if states[n - 1][v].members[u] == states[m][v].members[u] {
        StepAuthority(states[n - 1], ops[n - 1], v, u);
      }
    } else {
      assert VaultInv(states[m][v]);
      assert MemberInv(states[m][v], states[m][v].members[u]);
    }
  }

  // ---------- What a user sees ----------

  predicate Present(s: State, v: Id, u: Id) {
    v in s && u in s[v].members && s[v].members[u].status != Revoked
  }

  datatype Shown = Shown(
    name: string, ownerUserId: Id, keyVersion: int, myRole: Role, myWrappedKeyPayload: string, memberCount: nat)

  function ShownTo(s: State, v: Id, u: Id): Shown
    requires Present(s, v, u)
  {
    Shown(s[v].name, s[v].ownerUserId, s[v].keyVersion, s[v].members[u].role, s[v].members[u].wrappedKeyPayload,
          |s[v].members|)
  }

  /** The vaults that a user's list shows. */
  function VaultsFor(s: State, u: Id): map<Id, Shown> {
    map v | v in s && Present(s, v, u) :: ShownTo(s, v, u)
  }

  type Listing = map<Id, (Role, MemberStatus, int)>

  // The details of a vault, with every member's role, status and version, are for present members.
  function Details(s: State, caller: Id, v: Id): Result<Listing, Response> {
    if v !in s then Err(NotFound)
    else if !Present(s, v, caller) then Err(Forbidden)
    else Ok(map u | u in s[v].members :: (s[v].members[u].role, s[v].members[u].status, s[v].members[u].keyVersion))
  }

  // ---------- The service ----------

  class SharedVaultService {
    var vaults: map<Id, Vault>

    ghost predicate Valid()
      reads this
    {
      Inv(vaults)
    }

    constructor ()
      ensures Valid() && vaults == map[]
    {
      vaults := map[];
    }

    method CreateVault(owner: Id, name: string, members: seq<MemberInput>, newId: Id) returns (resp: Response)
      requires Valid() && newId !in vaults
      modifies this
      ensures Valid() && (vaults, resp) == Step(old(vaults), Op.CreateVault(owner, name, members, newId))
    {
      StepKeepsInv(vaults, Op.CreateVault(owner, name, members, newId));
      if Trim(name) == "" {
        return NameRequired;
      }
      var membersMap := map[owner := VaultMember(Admin, Accepted, 1, OwnerPayload(members, owner))];
      for i := 0 to |members|
        invariant membersMap == Invited(InitialMembers(owner, members), owner, members[..i])
      {
        var m := members[i];
        assert members[..i + 1][..i] == members[..i];
        if m.userId != owner {
          membersMap := membersMap[m.userId := VaultMember(RoleOf(m), Pending, 1, m.wrappedKeyPayload)];
        }
      }
      assert members[..|members|] == members;
      vaults := vaults[newId := Vault(Trim(name), owner, 1, membersMap)];
      resp := Created(newId);
    }

    method AddMember(caller: Id, vaultId: Id, input: MemberInput) returns (resp: Response)
      requires Valid()
      modifies this
      ensures Valid() && (vaults, resp) == Step(old(vaults), Op.AddMember(caller, vaultId, input))
    {
      StepKeepsInv(vaults, Op.AddMember(caller, vaultId, input));
      if vaultId !in vaults {
        return NotFound;
      }
      var vault := vaults[vaultId];
      if !IsAdmin(vault, caller) {
        return Forbidden;
      }
      if input.userId in vault.members {
        if vault.members[input.userId].status != Revoked {
          return Conflict;
        }
      }
      var newMember := VaultMember(RoleOf(input), Pending, vault.keyVersion, input.wrappedKeyPayload);
      vaults := vaults[vaultId := vault.(members := vault.members[input.userId := newMember])];
      resp := Added;
    }

    method RemoveMember(caller: Id, vaultId: Id, target: Id) returns (resp: Response)
      requires Valid()
      modifies this
      ensures Valid() && (vaults, resp) == Step(old(vaults), Op.RemoveMember(caller, vaultId, target))
    {
      StepKeepsInv(vaults, Op.RemoveMember(caller, vaultId, target));
      if vaultId !in vaults {
        return NotFound;
      }
      var vault := vaults[vaultId];
      if !IsAdmin(vault, caller) {
        return Forbidden;
      }
      if target == vault.ownerUserId {
        return OwnerStays;
      }
      if target !in vault.members || vault.members[target].status == Revoked {
        return NotFound;
      }
      var members := vault.members[target := vault.members[target].(status := Revoked, wrappedKeyPayload := "")];
      vaults := vaults[vaultId := vault.(members := members)];
      resp := Removed(Remaining(members));
    }

    method RotateKeys(caller: Id, vaultId: Id, keyVersion: int, wraps: seq<Wrap>) returns (resp: Response)
      requires Valid()
      modifies this
      ensures Valid() && (vaults, resp) == Step(old(vaults), Op.RotateKeys(caller, vaultId, keyVersion, wraps))
    {
      StepKeepsInv(vaults, Op.RotateKeys(caller, vaultId, keyVersion, wraps));
      if vaultId !in vaults {
        return NotFound;
      }
      var vault := vaults[vaultId];
      if !IsAdmin(vault, caller) {
        return Forbidden;
      }
      if keyVersion <= vault.keyVersion {
        return StaleVersion;
      }
      var members := vault.members;
      for i := 0 to |wraps|
        invariant members == Rewrapped(vault.members, keyVersion, wraps[..i])
      {
        var wrap := wraps[i];
        assert wraps[..i + 1][..i] == wraps[..i];
        if wrap.userId in members && members[wrap.userId].status != Revoked {
          members := members[wrap.userId :=
            members[wrap.userId].(keyVersion := keyVersion, wrappedKeyPayload := wrap.payload)];
        }
      }
      assert wraps[..|wraps|] == wraps;
      vaults := vaults[vaultId := vault.(keyVersion := keyVersion, members := members)];
      resp := Rotated(keyVersion, |wraps|);
    }

    /** Walks through all vaults and collects those where the user is present. */
    method GetVaultsForUser(userId: Id) returns (userVaults: map<Id, Shown>)
      ensures userVaults == VaultsFor(vaults, userId)
    {
      userVaults := map[];
      var rest := vaults.Keys;
      while rest != {}
        invariant rest <= vaults.Keys
        invariant userVaults
                  == map v | v in vaults && v !in rest && Present(vaults, v, userId) :: ShownTo(vaults, v, userId)
        decreases rest
      {
        var v :| v in rest;
        var vault := vaults[v];
        if userId in vault.members && vault.members[userId].status != Revoked {
          var member := vault.members[userId];
          userVaults := userVaults[v := Shown(vault.name, vault.ownerUserId, vault.keyVersion, member.role,
                                              member.wrappedKeyPayload, |vault.members|)];
        }
        rest := rest - {v};
      }
    }

    method GetVaultDetails(callerUserId: Id, vaultId: Id) returns (r: Result<Listing, Response>)
      ensures r == Details(vaults, callerUserId, vaultId)
    {
      if vaultId !in vaults {
        return Err(NotFound);
      }
      var vault := vaults[vaultId];
      if callerUserId !in vault.members || vault.members[callerUserId].status == Revoked {
        return Err(Forbidden);
      }
      r := Ok(map u | u in vault.members ::
                (vault.members[u].role, vault.members[u].status, vault.members[u].keyVersion));
    }
  }
}
