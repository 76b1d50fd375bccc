/** The directory of wrapped folder keys: versioned publication, revocation and lookup. */
module KeyDirectory {
  import opened Wrappers
  import opened Decimal
  import opened Addressees

  type Id = string

  datatype WrappedKey = WrappedKey(
    ephemeralX25519PublicKey: string, mlkemCiphertext: string, aesNonce: string, wrappedFolderKey: string)

  type Recipient = Addressed<WrappedKey>

  // Primary keys of the two tables.
  datatype VersionKey = VersionKey(folder: Id, version: string)
  datatype RowKey = RowKey(user: Id, folder: Id, version: string)

  datatype Row = Row(key: WrappedKey, revokedAt: Option<int>)

  datatype State = State(versions: set<VersionKey>, rows: map<RowKey, Row>)

  const EMPTY := State({}, map[])

  datatype Op =
    | Publish(folder: Id, keyVersion: string, recipients: seq<Recipient>)
    | Revoke(folder: Id, user: Id, keyVersion: string, recipients: seq<Recipient>)

  datatype Response = Done | MustNotRemain

  // ---------- The greatest of a set of strings ----------

  ghost predicate IsMax(vs: set<string>, m: string) {
    m in vs && forall v :: v in vs ==> LexLeq(v, m)
  }

  lemma MaxExists(vs: set<string>)
    requires vs != {}
    ensures exists m :: IsMax(vs, m)
    decreases vs
  {
    var x :| x in vs;
    var rest := vs - {x};
    assert forall v :: v in vs ==> v == x || v in rest;
    LexTotal(x, x);
    if rest == {} {
      assert IsMax(vs, x);
    } else {
      MaxExists(rest);
      var y :| IsMax(rest, y);
      LexTotal(x, y);
      var m := if LexLeq(x, y) then y else x;
      forall v | v in vs ensures LexLeq(v, m) {
        if v in rest && m == x {
          LexTransitive(v, y, x);
        }
      }
      assert IsMax(vs, m);
    }
  }

  ghost function LexMax(vs: set<string>): (m: string)
    requires vs != {}
    ensures IsMax(vs, m)
  {
    MaxExists(vs);
    var m :| IsMax(vs, m);
    m
  }

  method FindMax(vs: set<string>) returns (m: string)
    requires vs != {}
    ensures m == LexMax(vs)
  {
    m :| m in vs;
    var rest := vs - {m};
    LexTotal(m, m);
    while rest != {}
      invariant m in vs && rest <= vs
      invariant forall v :: v in vs && v !in rest ==> LexLeq(v, m)
      decreases rest
    {
      var v :| v in rest;
      LexTotal(v, m);
      LexTotal(v, v);
      if !LexLeq(v, m) {
        forall w | w in vs && w !in rest ensures LexLeq(w, v) {
          LexTransitive(w, m, v);
        }
        m := v;
      }
      rest := rest - {v};
    }
    LexTotal(m, LexMax(vs));
  }

  // ---------- One step ----------

  function VersionsOf(s: State, folder: Id): set<string> {
    set k | k in s.versions && k.folder == folder :: k.version
  }

  /** The current version of a folder: the greatest string, or none. */
  ghost function CurrentVersion(s: State, folder: Id): Option<string> {
    if VersionsOf(s, folder) == {} then None else Some(LexMax(VersionsOf(s, folder)))
  }

  function Number(v: string): int {
    match ParseInt(v) case Some(n) => n case None => 0
  }

  // The version that a publish really uses: the requested one if it is a greater number, else the next one.
  function Target(current: Option<string>, requested: string): int {
    var latest := if current.Some? then Number(current.value) else 0;
    match ParseInt(requested)
    case Some(n) => if current.Some? && n <= latest then latest + 1 else n
    case None => latest + 1
  }

  function Inserted(rows: map<RowKey, Row>, folder: Id, version: string, recipients: seq<Recipient>): map<RowKey, Row> {
    if recipients == [] then rows
    else
      var before, r := Inserted(rows, folder, version, recipients[..|recipients| - 1]), recipients[|recipients| - 1];
      before[RowKey(r.userId, folder, version) := Row(r.payload, None)]
  }

  ghost function Published(s: State, folder: Id, requested: string, recipients: seq<Recipient>): State {
    var v := ToString(Target(CurrentVersion(s, folder), requested));
    State(s.versions + {VersionKey(folder, v)}, Inserted(s.rows, folder, v, recipients))
  }

  function MarkRevoked(rows: map<RowKey, Row>, folder: Id, user: Id, now: int): map<RowKey, Row> {
    map k | k in rows ::
      if k.folder == folder && k.user == user && rows[k].revokedAt.None?
      then rows[k].(revokedAt := Some(now))
      else rows[k]
  }

  ghost function Step(s: State, now: int, op: Op): (State, Response) {
    match op
    case Publish(folder, requested, recipients) => (Published(s, folder, requested, recipients), Done)
    case Revoke(folder, user, requested, remaining) =>
      if Names(remaining, user) then (s, MustNotRemain)
      else
        var marked := s.(rows := MarkRevoked(s.rows, folder, user, now));
        (if remaining == [] then marked else Published(marked, folder, requested, remaining), Done)
  }

  // ---------- Lookup ----------

  predicate IsActive(s: State, user: Id, folder: Id, version: string) {
    var k := RowKey(user, folder, version);
    k in s.rows && s.rows[k].revokedAt.None?
  }

  function ActiveVersions(s: State, user: Id, folder: Id): set<string> {
    set k | k in s.rows && k.user == user && k.folder == folder && s.rows[k].revokedAt.None? :: k.version
  }

  /** The caller's own active record: of the given version, else of the greatest version string. */
  ghost function Fetch(s: State, caller: Id, folder: Id, version: Option<string>): Option<WrappedKey> {
    var active := ActiveVersions(s, caller, folder);
    if version.Some? then
      if IsActive(s, caller, folder, version.value)
      then Some(s.rows[RowKey(caller, folder, version.value)].key)
      else None
    else if active == {} then None
    else Some(s.rows[RowKey(caller, folder, LexMax(active))].key)
  }

  /** All of the caller's active records. */
  function MyShares(s: State, caller: Id): map<VersionKey, WrappedKey> {
    map k | k in s.rows.Keys && k.user == caller && s.rows[k].revokedAt.None? ::
      VersionKey(k.folder, k.version) := s.rows[k].key
  }

  // ---------- Revocation over whole runs ----------

  // The operation publishes a record for the user in the folder.
  predicate Republishes(op: Op, folder: Id, user: Id) {
    op.folder == folder && Names(op.recipients, user) && (op.Revoke? ==> op.user != user)
  }

  lemma {:induction false} InsertedOutcome(rows: map<RowKey, Row>, folder: Id, version: string,
                                           recipients: seq<Recipient>, k: RowKey)
    ensures
      var after := Inserted(rows, folder, version, recipients);
      var written := k.folder == folder && k.version == version && Names(recipients, k.user);
      && (k in after <==> k in rows || written)
      && (written ==> after[k] == Row(LastPayload(recipients, k.user), None))
      && (k in rows && !written ==> after[k] == rows[k])
  {
    if recipients != [] {
      var n := |recipients| - 1;
      InsertedOutcome(rows, folder, version, recipients[..n], k);
      NamesLast(recipients, k.user);
    }
  }

  ghost predicate HasKey(s: State, user: Id, folder: Id) {
    exists v :: IsActive(s, user, folder, v)
  }

  // Without a publish that names the user, no record of the user becomes active.
  lemma StepGivesNoKey(s: State, now: int, op: Op, user: Id, folder: Id, v: string)
    requires !Republishes(op, folder, user) && IsActive(Step(s, now, op).0, user, folder, v)
    ensures IsActive(s, user, folder, v)
    ensures Step(s, now, op).1 == Done && op.Revoke? ==> !(op.folder == folder && op.user == user)
  {
    var k := RowKey(user, folder, v);
    match op {
      case Publish(f, requested, recipients) =>
        InsertedOutcome(s.rows, f, ToString(Target(CurrentVersion(s, f), requested)), recipients, k);
      case Revoke(f, u, requested, remaining) =>
        var marked := s.(rows := MarkRevoked(s.rows, f, u, now));
        InsertedOutcome(marked.rows, f, ToString(Target(CurrentVersion(marked, f), requested)), remaining, k);
    }
  }

  datatype Event = Event(now: int, op: Op)

  ghost function StateAt(evs: seq<Event>, n: nat): State
    requires n <= |evs|
  {
    if n == 0 then EMPTY else Step(StateAt(evs, n - 1), evs[n - 1].now, evs[n - 1].op).0
  }

  // Event i revoked the user's access to the folder.
  ghost predicate RevokedAt(evs: seq<Event>, i: nat, user: Id, folder: Id) {
    i < |evs| && evs[i].op.Revoke? && evs[i].op.user == user && evs[i].op.folder == folder
    && Step(StateAt(evs, i), evs[i].now, evs[i].op).1 == Done
  }

  /**
   * After a revocation the user has no active record in the folder, whatever else happens, until an event
   * publishes one that names the user. So every lookup of the user's fails there, by version or without one.
   */
  lemma {:induction false} RevokedStaysOut(evs: seq<Event>, m: nat, n: nat, user: Id, folder: Id)
    requires RevokedAt(evs, m, user, folder) && m < n <= |evs|
    requires forall i :: m < i < n ==> !Republishes(evs[i].op, folder, user)
    ensures !HasKey(StateAt(evs, n), user, folder)
    ensures forall version :: Fetch(StateAt(evs, n), user, folder, version) == None
    ensures forall k :: k in MyShares(StateAt(evs, n), user) ==> k.folder != folder
  {
    hide Step, Fetch, MyShares;
    var i := n - 1;
    if v :| IsActive(StateAt(evs, n), user, folder, v) {
      if i > m {
        assert !Republishes(evs[i].op, folder, user);
        StepGivesNoKey(StateAt(evs, i), evs[i].now, evs[i].op, user, folder, v);
        RevokedStaysOut(evs, m, i, user, folder);
      } else {
        StepGivesNoKey(StateAt(evs, i), evs[i].now, evs[i].op, user, folder, v);
      }
    }
    NoKeyNoLookup(StateAt(evs, n), user, folder);
  }

  lemma NoKeyNoLookup(s: State, user: Id, folder: Id)
    requires !HasKey(s, user, folder)
    ensures forall version :: Fetch(s, user, folder, version) == None
    ensures forall k :: k in MyShares(s, user) ==> k.folder != folder
  {
    forall v | v in ActiveVersions(s, user, folder) ensures IsActive(s, user, folder, v) {
    }
    forall k | k in MyShares(s, user) ensures IsActive(s, user, k.folder, k.version) {
    }
  }

  // ---------- Versions ----------

  // Every version of the folder is the numeral of an integer, as every publish writes it.
  ghost predicate Canonical(s: State, folder: Id) {
    forall v :: v in VersionsOf(s, folder) ==> v == ToString(Number(v))
  }

  // The current version, the greatest as a string, is also the greatest as a number.
  ghost predicate CurrentIsGreatest(s: State, folder: Id) {
    forall v :: v in VersionsOf(s, folder) ==> Number(v) <= Number(LexMax(VersionsOf(s, folder)))
  }

  // Whatever version is asked for, the one that the publish uses is a greater number than all before.
  ghost predicate AlwaysRises(s: State, folder: Id) {
    forall requested, v :: v in VersionsOf(s, folder) ==> Number(v) < Target(CurrentVersion(s, folder), requested)
  }

  /** Publishing raises the version exactly when string order finds the numerically greatest one. */
  lemma PublishRisesExactly(s: State, folder: Id)
    ensures AlwaysRises(s, folder) <==> CurrentIsGreatest(s, folder)
  {
    var vs := VersionsOf(s, folder);
    if vs != {} {
      var top := LexMax(vs);
      if !CurrentIsGreatest(s, folder) {
        var v :| v in vs && Number(v) > Number(top);
        var requested := ToString(Number(top) + 1);
        PrintThenParse(Number(top) + 1);
        assert Target(CurrentVersion(s, folder), requested) == Number(top) + 1;
      }
    }
  }

  ghost predicate SameLength(s: State, folder: Id) {
    forall v, w :: v in VersionsOf(s, folder) && w in VersionsOf(s, folder) ==>
      Number(v) >= 0 && |v| == |w|
  }

  /** Canonical versions with one digit count are such a case. */
  lemma SameLengthSuffices(s: State, folder: Id)
    requires Canonical(s, folder) && SameLength(s, folder)
    ensures AlwaysRises(s, folder)
  {
    hide ParseInt, LexLeq;
    var vs := VersionsOf(s, folder);
    forall v | v in vs ensures Number(v) <= Number(LexMax(vs)) {
      NumericOrder(s, folder, v, LexMax(vs));
    }
    PublishRisesExactly(s, folder);
  }

  lemma NumericOrder(s: State, folder: Id, v: string, w: string)
    requires Canonical(s, folder) && SameLength(s, folder) && v in VersionsOf(s, folder) && w in VersionsOf(s, folder)
    ensures LexLeq(v, w) <==> Number(v) <= Number(w)
  {
    hide ParseInt, LexLeq;
    LexIsNumeric(Number(v), Number(w));
  }

  // Every row belongs to a published version.
  ghost predicate RowsHaveVersions(s: State) {
    forall k :: k in s.rows ==> VersionKey(k.folder, k.version) in s.versions
  }

  lemma StepKeepsRows(s: State, now: int, op: Op)
    requires RowsHaveVersions(s) && forall f :: Canonical(s, f)
    ensures RowsHaveVersions(Step(s, now, op).0) && forall f :: Canonical(Step(s, now, op).0, f)
  {
    var s' := Step(s, now, op).0;
    var base := if op.Revoke? then s.(rows := MarkRevoked(s.rows, op.folder, op.user, now)) else s;
    var t := Target(CurrentVersion(base, op.folder), op.keyVersion);
    PrintThenParse(t);
    forall k | k in s'.rows ensures VersionKey(k.folder, k.version) in s'.versions {
      InsertedOutcome(base.rows, op.folder, ToString(t), op.recipients, k);
    }
    forall f, v | v in VersionsOf(s', f) ensures v == ToString(Number(v)) {
      assert v in VersionsOf(s, f) || v == ToString(t);
      assert Canonical(s, f);
    }
  }

  lemma {:induction false} RowsAlways(evs: seq<Event>, n: nat)
    requires n <= |evs|
    ensures RowsHaveVersions(StateAt(evs, n)) && forall f :: Canonical(StateAt(evs, n), f)
  {
    if n > 0 {
      RowsAlways(evs, n - 1);
      StepKeepsRows(StateAt(evs, n - 1), evs[n - 1].now, evs[n - 1].op);
    }
  }

  // Row k is after the publish what it was before.
  ghost predicate RowKept(s: State, folder: Id, requested: string, recipients: seq<Recipient>, k: RowKey) {
    var rows := Published(s, folder, requested, recipients).rows;
    k in s.rows && k in rows && rows[k] == s.rows[k]
  }

  // Whatever is asked for and whoever is named, the publish leaves every row alone.
  ghost predicate RewritesNothing(s: State, folder: Id) {
    forall requested, recipients, k :: k in s.rows ==> RowKept(s, folder, requested, recipients, k)
  }

  // No row of the folder has a greater number than the folder's current version.
  ghost predicate RowsUpToCurrent(s: State, folder: Id) {
    var current := CurrentVersion(s, folder);
    forall k :: k in s.rows && k.folder == folder ==> current.Some? && Number(k.version) <= Number(current.value)
  }

  lemma NewVersionKeepsRow(s: State, folder: Id, requested: string, recipients: seq<Recipient>, k: RowKey)
    requires k in s.rows
    requires k.folder == folder ==>
               var current := CurrentVersion(s, folder);
               current.Some? && Number(k.version) <= Number(current.value)
    ensures RowKept(s, folder, requested, recipients, k)
  {
    var t := Target(CurrentVersion(s, folder), requested);
    PrintThenParse(t);
    InsertedOutcome(s.rows, folder, ToString(t), recipients, k);
  }

  // A row above the current version is rewritten by asking for its version again, for its user and with another key.
  lemma HigherRowIsRewritten(s: State, folder: Id, k: RowKey) returns (recipients: seq<Recipient>)
    requires k in s.rows && k.folder == folder && k.version == ToString(Number(k.version))
    requires CurrentVersion(s, folder).Some? && Number(k.version) > Number(CurrentVersion(s, folder).value)
    ensures !RowKept(s, folder, k.version, recipients, k)
  {
    var stored := s.rows[k].key;
    recipients := [Addressed(k.user, stored.(aesNonce := stored.aesNonce + "x"))];
    PrintThenParse(Number(k.version));
    InsertedOutcome(s.rows, folder, k.version, recipients, k);
    assert recipients[0].userId == k.user;
  }

  /**
   * A publish never rewrites a row exactly when no row of the folder is above the current version. What is assumed
   * of the rows and versions holds in every run, see `RowsAlways`.
   */
  lemma PublishRewritesNothingExactly(s: State, folder: Id)
    requires RowsHaveVersions(s) && Canonical(s, folder)
    ensures RewritesNothing(s, folder) <==> RowsUpToCurrent(s, folder)
  {
    hide RowKept, Number, CurrentVersion;
    if RowsUpToCurrent(s, folder) {
      forall requested, recipients, k | k in s.rows ensures RowKept(s, folder, requested, recipients, k) {
        NewVersionKeepsRow(s, folder, requested, recipients, k);
      }
    } else {
      var current := CurrentVersion(s, folder);
      var k :| k in s.rows && k.folder == folder && !(current.Some? && Number(k.version) <= Number(current.value));
      RowHasCurrent(s, k);
      var recipients := HigherRowIsRewritten(s, folder, k);
    }
  }

  lemma RowHasCurrent(s: State, k: RowKey)
    requires RowsHaveVersions(s) && k in s.rows
    ensures k.version in VersionsOf(s, k.folder) && CurrentVersion(s, k.folder).Some?
  {
    assert VersionKey(k.folder, k.version) in s.versions;
  }

  /** Where versions rise this is so: a publish rewrites no earlier row. */
  lemma PublishRewritesNothing(s: State, folder: Id, requested: string, recipients: seq<Recipient>)
    requires RowsHaveVersions(s) && AlwaysRises(s, folder)
    ensures forall k :: k in s.rows ==>
              k in Published(s, folder, requested, recipients).rows
              && Published(s, folder, requested, recipients).rows[k] == s.rows[k]
  {
    PublishRisesExactly(s, folder);
    forall k | k in s.rows ensures RowKept(s, folder, requested, recipients, k) {
      RowHasCurrent(s, k);
      NewVersionKeepsRow(s, folder, requested, recipients, k);
    }
  }

  lemma MaxOfOneMore(vs: set<string>, v: string)
    ensures
      LexMax(vs + {v}) == if forall w :: w in vs ==> LexLeq(w, v) then v else LexMax(vs)
  {
    hide LexLeq;
    var all := vs + {v};
    var m := LexMax(all);
    assert v in all;
    LexTotal(v, v);
    LexTotal(m, v);
    if vs != {} {
      LexTotal(m, LexMax(vs));
      assert LexMax(vs) in all;
      LexTotal(v, LexMax(vs));
      if w :| w in vs && !LexLeq(w, v) {
        assert m != v;
      }
    }
  }

  lemma PublishActivates(s: State, folder: Id, requested: string, recipients: seq<Recipient>, user: Id)
    requires Names(recipients, user)
    ensures
      var v, s' := ToString(Target(CurrentVersion(s, folder), requested)), Published(s, folder, requested, recipients);
      ActiveVersions(s', user, folder) == ActiveVersions(s, user, folder) + {v}
  {
    hide ToString, Target, CurrentVersion, Inserted;
    var v, s' := ToString(Target(CurrentVersion(s, folder), requested)), Published(s, folder, requested, recipients);
    forall w ensures w in ActiveVersions(s', user, folder) <==> w in ActiveVersions(s, user, folder) + {v} {
      var k := RowKey(user, folder, w);
      InsertedOutcome(s.rows, folder, v, recipients, k);
      assert w in ActiveVersions(s, user, folder) <==> k in s.rows && s.rows[k].revokedAt.None?;
      assert w in ActiveVersions(s', user, folder) <==> k in s'.rows && s'.rows[k].revokedAt.None?;
    }
  }

  /**
   * What a recipient who asks for the latest key gets after a publish, in any state: the record just published
   * exactly when no active version of theirs is a greater string than its version, and otherwise what they got
   * before.
   */
  lemma PublishThenFetchExactly(s: State, folder: Id, requested: string, recipients: seq<Recipient>, user: Id)
    requires Names(recipients, user)
    ensures
      var v := ToString(Target(CurrentVersion(s, folder), requested));
      Fetch(Published(s, folder, requested, recipients), user, folder, None)
      == if forall w :: w in ActiveVersions(s, user, folder) ==> LexLeq(w, v) then Some(LastPayload(recipients, user))
         else Fetch(s, user, folder, None)
  {
    hide ToString, Target, CurrentVersion, Inserted, LexLeq, LastPayload;
    var v, s' := ToString(Target(CurrentVersion(s, folder), requested)), Published(s, folder, requested, recipients);
    var active := ActiveVersions(s, user, folder);
    PublishActivates(s, folder, requested, recipients, user);
    MaxOfOneMore(active, v);
    var m := LexMax(active + {v});
    InsertedOutcome(s.rows, folder, v, recipients, RowKey(user, folder, m));
    if w :| w in active && !LexLeq(w, v) {
      assert m == LexMax(active) && m in active && LexLeq(w, m);
    }
  }

  /** Versions of one digit count, the new one included, are such a case. */
  lemma PublishThenFetch(s: State, folder: Id, requested: string, recipients: seq<Recipient>, user: Id)
    requires RowsHaveVersions(s) && Canonical(s, folder) && Names(recipients, user)
    requires SameLength(Published(s, folder, requested, recipients), folder)
    ensures Fetch(Published(s, folder, requested, recipients), user, folder, None)
            == Some(LastPayload(recipients, user))
  {
    hide LexLeq, Fetch;
    var t := Target(CurrentVersion(s, folder), requested);
    var v := ToString(t);
    PrintThenParse(t);
    VersionsGrow(s, folder, requested, recipients);
    SameLengthSuffices(s, folder);
    forall w | w in ActiveVersions(s, user, folder) ensures LexLeq(w, v) {
      RowHasCurrent(s, RowKey(user, folder, w));
      LexIsNumeric(Number(w), t);
    }
    PublishThenFetchExactly(s, folder, requested, recipients, user);
  }

  // An active version of the user, of the greatest number.
  ghost predicate IsNewest(s: State, folder: Id, user: Id, v: string) {
    v in ActiveVersions(s, user, folder) && forall w :: w in ActiveVersions(s, user, folder) ==> Number(w) <= Number(v)
  }

  /**
   * While a folder's versions have one digit count, whoever asks for the latest record gets the numerically newest
   * of their active ones.
   */
  lemma FetchIsNewest(s: State, folder: Id, user: Id)
    requires RowsHaveVersions(s) && Canonical(s, folder) && SameLength(s, folder)
    ensures Fetch(s, user, folder, None).None? <==> ActiveVersions(s, user, folder) == {}
    ensures forall v :: IsNewest(s, folder, user, v) ==> Fetch(s, user, folder, None) == Fetch(s, user, folder, Some(v))
  {
    hide Number, LexLeq;
    var active := ActiveVersions(s, user, folder);
    forall v | IsNewest(s, folder, user, v) ensures Fetch(s, user, folder, None) == Fetch(s, user, folder, Some(v)) {
      var m := LexMax(active);
      RowHasCurrent(s, RowKey(user, folder, v));
      RowHasCurrent(s, RowKey(user, folder, m));
      NumericOrder(s, folder, m, v);
      NumericOrder(s, folder, v, m);
      assert Number(m) == Number(v) && v == ToString(Number(v)) && m == ToString(Number(m));
    }
  }

  lemma VersionsGrow(s: State, folder: Id, requested: string, recipients: seq<Recipient>)
    ensures
      var v := ToString(Target(CurrentVersion(s, folder), requested));
      VersionsOf(Published(s, folder, requested, recipients), folder) == VersionsOf(s, folder) + {v}
    ensures SameLength(Published(s, folder, requested, recipients), folder) ==> SameLength(s, folder)
  {
    hide Target, CurrentVersion, ToString, Inserted, Number;
    var v, s' := ToString(Target(CurrentVersion(s, folder), requested)), Published(s, folder, requested, recipients);
    assert VersionKey(folder, v) in s'.versions;
    forall w ensures w in VersionsOf(s', folder) <==> w in VersionsOf(s, folder) + {v} {
      assert w in VersionsOf(s, folder) <==> VersionKey(folder, w) in s.versions;
      assert w in VersionsOf(s', folder) <==> VersionKey(folder, w) in s'.versions;
    }
  }

  /**
   * From nine to ten the two orders part: after versions 9 and 10, asking for version 10 once more replaces the
   * record of version 10.
   */
  lemma TenIsBelowNine(first: WrappedKey, second: WrappedKey)
    requires first != second
    ensures
      var p := (v, key) => Event(0, Publish("f", v, [Addressed("u", key)]));
      var evs := [p("9", first), p("10", first), p("10", second)];
      var k := RowKey("u", "f", "10");
      && k in StateAt(evs, 2).rows && StateAt(evs, 2).rows[k].key == first && !RowsUpToCurrent(StateAt(evs, 2), "f")
      && k in StateAt(evs, 3).rows && StateAt(evs, 3).rows[k].key == second
  {
    var p := (v, key) => Event(0, Publish("f", v, [Addressed("u", key)]));
    var evs := [p("9", first), p("10", first), p("10", second)];
    var nine, ten := VersionKey("f", "9"), VersionKey("f", "10");
    NineAndTen();
    assert VersionsOf(EMPTY, "f") == {};
    PublishOne(EMPTY, "9", first, "9");
    assert StateAt(evs, 1) == Published(EMPTY, "f", "9", [Addressed("u", first)]);
    assert VersionsOf(StateAt(evs, 1), "f") == {"9"};
    PublishOne(StateAt(evs, 1), "10", first, "10");
    assert StateAt(evs, 2) == Published(StateAt(evs, 1), "f", "10", [Addressed("u", first)]);
    assert VersionsOf(StateAt(evs, 2), "f") == {"9", "10"};
    assert LexMax({"9", "10"}) == "9";
    PublishOne(StateAt(evs, 2), "10", second, "10");
  }

  lemma NineAndTen()
    ensures ToString(9) == "9" && ToString(10) == "10" && Number("9") == 9 && Number("10") == 10
    ensures ParseInt("9") == Some(9) && ParseInt("10") == Some(10)
    ensures !LexLeq("9", "10")
  {
    PrintThenParse(9);
    PrintThenParse(10);
    assert ToDecimal(9) == "9" && ToDecimal(10) == ToDecimal(1) + "0";
  }

  // A publish for one recipient.
  lemma PublishOne(s: State, requested: string, key: WrappedKey, version: string)
    requires ToString(Target(CurrentVersion(s, "f"), requested)) == version
    ensures
      var s' := Published(s, "f", requested, [Addressed("u", key)]);
      && s'.versions == s.versions + {VersionKey("f", version)}
      && s'.rows == s.rows[RowKey("u", "f", version) := Row(key, None)]
  {
    var one := [Addressed("u", key)];
    assert one[..|one| - 1] == [];
    assert Inserted(s.rows, "f", version, []) == s.rows;
  }

  // ---------- The service ----------

  class KeyDirectoryService {
    var versions: set<VersionKey>
    var rows: map<RowKey, Row>

    ghost function Snapshot(): State
      reads this
    {
      State(versions, rows)
    }

    constructor ()
      ensures Snapshot() == EMPTY
    {
      versions, rows := {}, map[];
    }

    method GetCurrentKeyVersion(folder: Id) returns (v: Option<string>)
      ensures v == CurrentVersion(Snapshot(), folder)
    {
      var vs := set k | k in versions && k.folder == folder :: k.version;
      assert vs == VersionsOf(Snapshot(), folder);
      if vs == {} {
        return None;
      }
      var m := FindMax(vs);
      v := Some(m);
    }

    method PublishWrappedKeys(folder: Id, keyVersion: string, recipients: seq<Recipient>)
      modifies this
      ensures Snapshot() == Published(old(Snapshot()), folder, keyVersion, recipients)
    {
      var latestVersionStr := GetCurrentKeyVersion(folder);
      var latestVersionNum := 0;
      if latestVersionStr.Some? {
        latestVersionNum := Number(latestVersionStr.value);
      }
      var requested := ParseInt(keyVersion);
      var targetVersion := 0;
      if requested.Some? {
        targetVersion := requested.value;
      }
      if requested.None? || (latestVersionStr.Some? && targetVersion <= latestVersionNum) {
        targetVersion := latestVersionNum + 1;
      }
      var finalVersionStr := ToString(targetVersion);
      versions := versions + {VersionKey(folder, finalVersionStr)};
      for i := 0 to |recipients|
        invariant versions == old(versions) + {VersionKey(folder, finalVersionStr)}
        invariant rows == Inserted(old(rows), folder, finalVersionStr, recipients[..i])
      {
        assert recipients[..i + 1][..i] == recipients[..i];
        rows := rows[RowKey(recipients[i].userId, folder, finalVersionStr) := Row(recipients[i].payload, None)];
      }
      assert recipients[..|recipients|] == recipients;
    }

    method RevokeRecipient(folder: Id, user: Id, newKeyVersion: string, remaining: seq<Recipient>, now: int)
      returns (resp: Response)
      modifies this
      ensures (Snapshot(), resp) == Step(old(Snapshot()), now, Op.Revoke(folder, user, newKeyVersion, remaining))
    {
      if exists i :: 0 <= i < |remaining| && remaining[i].userId == user {
        return MustNotRemain;
      }
      rows := MarkRevoked(rows, folder, user, now);
      if |remaining| > 0 {
        PublishWrappedKeys(folder, newKeyVersion, remaining);
      }
      resp := Done;
    }

    method FetchWrappedKey(caller: Id, folder: Id, keyVersion: Option<string>) returns (key: Option<WrappedKey>)
      ensures key == Fetch(Snapshot(), caller, folder, keyVersion)
    {
      if keyVersion.Some? {
        var k := RowKey(caller, folder, keyVersion.value);
        if k in rows && rows[k].revokedAt.None? {
          return Some(rows[k].key);
        }
        return None;
      }
      var active := set k | k in rows && k.user == caller && k.folder == folder && rows[k].revokedAt.None? :: k.version;
      assert active == ActiveVersions(Snapshot(), caller, folder);
      if active == {} {
        return None;
      }
      var m := FindMax(active);
      key := Some(rows[RowKey(caller, folder, m)].key);
    }
  }
}
