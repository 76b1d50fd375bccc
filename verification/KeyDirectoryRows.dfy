/** The key directory seen from the rows: what any operation does to one record, and what the recipients get. */
module KeyDirectoryRows {
  import opened Wrappers
  import opened Decimal
  import opened Addressees
  import opened KeyDirectory

  // ---------- What an operation publishes ----------

  // The operation is carried out: a revocation must not name the revoked user among the remaining.
  predicate CarriedOut(op: Op) {
    op.Revoke? ==> !Names(op.recipients, op.user)
  }

  // The operation publishes a version: always for a publication, and for a revocation if somebody remains.
  predicate Publishes(op: Op) {
    CarriedOut(op) && (op.Publish? || op.recipients != [])
  }

  // The version that is published.
  ghost function PublishedVersion(s: State, op: Op): string {
    ToString(Target(CurrentVersion(s, op.folder), op.keyVersion))
  }

  // The operation writes a record at this key.
  ghost predicate Writes(s: State, op: Op, k: RowKey) {
    Publishes(op) && k.folder == op.folder && k.version == PublishedVersion(s, op) && Names(op.recipients, k.user)
  }

  // The operation revokes the record at this key.
  predicate Marks(s: State, op: Op, k: RowKey) {
    && op.Revoke? && CarriedOut(op)
    && k in s.rows && k.folder == op.folder && k.user == op.user && s.rows[k].revokedAt.None?
  }

  lemma SameCurrent(s: State, s': State, folder: Id)
    requires s'.versions == s.versions
    ensures CurrentVersion(s', folder) == CurrentVersion(s, folder)
  {
    assert VersionsOf(s', folder) == VersionsOf(s, folder);
  }

  /**
   * What any operation does to a record: a publication that names its user at its version writes it, a revocation of
   * its user marks it, and nothing else touches it.
   */
  lemma RowFate(s: State, now: int, op: Op, k: RowKey)
    ensures
      var s' := Step(s, now, op).0;
      && (k in s'.rows <==> k in s.rows || Writes(s, op, k))
      && (k in s'.rows ==>
            s'.rows[k] == if Writes(s, op, k) then Row(LastPayload(op.recipients, k.user), None)
                          else if Marks(s, op, k) then s.rows[k].(revokedAt := Some(now))
                          else s.rows[k])
  {
    hide Target, CurrentVersion, ToString, LastPayload;
    var version := PublishedVersion(s, op);
    match op {
      case Publish(f, requested, recipients) => InsertedOutcome(s.rows, f, version, recipients, k);
      case Revoke(f, u, requested, remaining) =>
        var marked := s.(rows := MarkRevoked(s.rows, f, u, now));
        SameCurrent(s, marked, f);
        InsertedOutcome(marked.rows, f, version, remaining, k);
    }
  }

  /** Versions are never taken back; one is added by each publication. */
  lemma VersionsFate(s: State, now: int, op: Op)
    ensures Step(s, now, op).0.versions
            == s.versions + if Publishes(op) then {VersionKey(op.folder, PublishedVersion(s, op))} else {}
    ensures Step(s, now, op).1 == if CarriedOut(op) then Done else MustNotRemain
    ensures !CarriedOut(op) ==> Step(s, now, op).0 == s
  {
    hide Target, ToString;
    if op.Revoke? {
      SameCurrent(s, s.(rows := MarkRevoked(s.rows, op.folder, op.user, now)), op.folder);
    }
  }

  // ---------- Versions ----------

  /** A requested number above the current one, or for a new folder any, is used as it is; otherwise the next one. */
  lemma RequestedVersion(current: Option<string>, requested: string, n: int)
    requires current.Some? ==> ParseInt(current.value) == Some(n)
    ensures
      var asked := ParseInt(requested);
      Target(current, requested)
      == if current.None? then (if asked.Some? then asked.value else 1)
         else if asked.Some? && asked.value > n then asked.value else n + 1
  {
    hide ParseInt;
  }

  // ---------- Who gets what ----------

  /**
   * After any publication, by itself or with a revocation, each named recipient holds the payload given last, at the
   * published version.
   */
  lemma RecipientsHoldTheNewKey(s: State, now: int, op: Op, user: Id)
    requires Publishes(op) && Names(op.recipients, user)
    ensures Fetch(Step(s, now, op).0, user, op.folder, Some(PublishedVersion(s, op)))
            == Some(LastPayload(op.recipients, user))
  {
    RowFate(s, now, op, RowKey(user, op.folder, PublishedVersion(s, op)));
    hide Step, Target, CurrentVersion, ToString, LastPayload;
  }

  /** Nobody else's records in any folder change by an operation that neither names nor revokes them. */
  lemma OthersKeepTheirKeys(s: State, now: int, op: Op, user: Id, folder: Id, version: string)
    requires folder != op.folder || (!Names(op.recipients, user) && (op.Revoke? ==> op.user != user))
    ensures Fetch(Step(s, now, op).0, user, folder, Some(version)) == Fetch(s, user, folder, Some(version))
  {
    RowFate(s, now, op, RowKey(user, folder, version));
    hide Step, Target, CurrentVersion, ToString, LastPayload;
  }

  /** A lookup shows only the caller's own active records: of the version asked for, or of some version. */
  lemma FetchShowsOwn(s: State, caller: Id, folder: Id, version: Option<string>, key: WrappedKey)
    requires Fetch(s, caller, folder, version) == Some(key)
    ensures exists v :: IsActive(s, caller, folder, v) && s.rows[RowKey(caller, folder, v)].key == key
                        && (version.Some? ==> v == version.value)
  {
    if version.None? {
      assert IsActive(s, caller, folder, LexMax(ActiveVersions(s, caller, folder)));
    }
  }

  /** The list of shares is exactly the caller's active records. */
  lemma SharesAreActive(s: State, caller: Id, folder: Id, version: string)
    ensures
      var k := VersionKey(folder, version);
      && (k in MyShares(s, caller) <==> IsActive(s, caller, folder, version))
      && (k in MyShares(s, caller) ==> MyShares(s, caller)[k] == s.rows[RowKey(caller, folder, version)].key)
  {
  }
}
