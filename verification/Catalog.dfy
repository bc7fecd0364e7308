/** The catalog object: transactions that edit its tables, and the declarative apply. */
module Catalogs {
  import opened Wrappers
  import opened Names
  import opened Schema
  import opened Decisions
  import opened LocalEdits
  import opened AtomicApply
  import opened Applications
  import opened AppliedConstraints
  import opened Planner
  import opened Execution
  import opened Summaries
  import opened Histories
  import opened Manifests

  datatype EditError = Validation | Database(violation: Violation)

  function InDatabase<T>(r: Result<T, Violation>): Result<T, EditError> {
    match r
    case Ok(value) => Ok(value)
    case Err(violation) => Err(Database(violation))
  }

  /** Sources are named with ASCII letters, digits, '.', '-' and '_', at most 128 of them. */
  predicate SourceIdOk(source: SourceId) {
    && source != "" && |source| <= 128
    && forall c | c in source ::
         'a' <= c <= 'z' || 'A' <= c <= 'Z' || '0' <= c <= '9' || c == '-' || c == '_' || c == '.'
  }

  // ---------- Statements shared by the transactions; `tx` is the transaction's own view ----------

  /** Refuses a resource that a source manages, and one that does not exist. */
  function EnsureLocal(tx: Db, k: Key): Result<(), EditError> {
    if k in tx.owners && tx.owners[k] == Local then Ok(()) else Err(Validation)
  }

  function InsertRow(tx: Db, k: Key, row: Row): Result<Db, EditError> {
    if k in tx.rows then Err(Database(UniqueViolation)) else UpdateRow(tx, k, row)
  }

  function UpdateRow(tx: Db, k: Key, row: Row): Result<Db, EditError> {
    var rows :- InDatabase(WriteRow(tx.rows, k, row));
    Ok(tx.(rows := rows))
  }

  function InsertLocalOwnership(tx: Db, k: Key): Result<Db, EditError> {
    if k in tx.owners then Err(Database(UniqueViolation)) else Ok(tx.(owners := tx.owners[k := Local]))
  }

  function IncrementRevision(tx: Db): Db {
    tx.(revision := tx.revision + 1)
  }

  /** Every granted asset must exist. */
  method ValidateAssetIds(tx: Db, assets: set<Id>) returns (ok: bool)
    ensures ok <==> forall a :: a in assets ==> Key(Assets, a) in tx.rows
  {
    var rest := assets;
    while rest != {}
      invariant rest <= assets
      invariant forall a :: a in assets - rest ==> Key(Assets, a) in tx.rows
    {
      var a :| a in rest;
      if Key(Assets, a) !in tx.rows { return false; }
      rest := rest - {a};
    }
    return true;
  }

  /** Deletes the key's grants and inserts one per distinct asset. */
  method ReplaceAssignments(tx: Db, key: Id, assets: set<Id>) returns (r: Result<Db, EditError>)
    requires Key(AccessKeys, key) in tx.rows
    ensures r.Ok? <==> forall a :: a in assets ==> Key(Assets, a) in tx.rows
    ensures r.Ok? ==> r.value == tx.(allow := (set g | g in tx.allow && g.key != key) + set a | a in assets :: Grant(key, a))
  {
    var inserted := InsertGrants(tx.(allow := set g | g in tx.allow && g.key != key), key, assets);
    return InDatabase(inserted);
  }

  lemma NothingOfAbsentKey(db: Db, id: Id)
    requires Valid(db) && Key(AccessKeys, id) !in db.rows
    ensures Key(AccessKeys, id) !in db.owners
    ensures (set g | g in db.allow && g.key != id) == db.allow
  {
  }

  lemma LocalKeyWritable(db: Db, k: Key, mode: AccessMode)
    requires Valid(db) && IsLocal(db, k) && k.kind == AccessKeys
    ensures k in db.rows && db.rows[k].KeyRow? && Writable(db.rows, k, db.rows[k].(mode := mode))
  {
    assert RowOk(k, db.rows[k]);
    OwnRowUnclashed(db.rows, k, db.rows[k].(mode := mode));
  }

  class Catalog {
    var rows: map<Key, Row>
    var allow: set<Grant>
    var owners: map<Key, Owner>
    var sources: map<SourceId, Source>
    var revision: nat

    function State(): Db
      reads this
    {
      Db(rows, allow, owners, sources, revision)
    }

    constructor ()
      ensures State() == EMPTY
    {
      rows, allow, owners, sources, revision := map[], {}, map[], map[], 0;
    }

    /** Installs a transaction's view; a transaction that never gets here leaves no trace. */
    method Commit(tx: Db)
      modifies this
      ensures State() == tx
    {
      rows, allow, owners, sources, revision := tx.rows, tx.allow, tx.owners, tx.sources, tx.revision;
    }

    /** A transaction's whole effect: it commits exactly when admitted, and then as specified. */
    twostate predicate Performed(edit: Edit, committed: bool)
      requires Valid(old(State()))
      reads this
    {
      && (committed <==> Admits(old(State()), edit))
      && State() == if Admits(old(State()), edit) then Effect(old(State()), edit) else old(State())
    }

    method AddCredential(id: Id, c: NewCredential) returns (r: Result<(), EditError>)
      requires Valid(State())
      modifies this
      ensures Performed(Edit.AddCredential(id, c), r.Ok?)
    {
      if !MaterialOk(c) { return Err(Validation); }
      var k := Key(Credentials, id);
      var tx :- InsertRow(State(), k, CredentialRowFor(c));
      // The row was not there, so neither was its ownership.
      var owned := InsertLocalOwnership(tx, k);
      tx := owned.value;
      Commit(IncrementRevision(tx));
      return Ok(());
    }

    method UpdateCredential(id: Id, c: NewCredential) returns (r: Result<(), EditError>)
      requires Valid(State())
      modifies this
      ensures Performed(Edit.UpdateCredential(id, c), r.Ok?)
    {
      if !MaterialOk(c) { return Err(Validation); }
      var k := Key(Credentials, id);
      var _ :- EnsureLocal(State(), k);
      var tx :- UpdateRow(State(), k, CredentialRowFor(c));
      Commit(IncrementRevision(tx));
      return Ok(());
    }

    method AddAsset(id: Id, a: NewAsset) returns (r: Result<(), EditError>)
      requires Valid(State())
      modifies this
      ensures Performed(Edit.AddAsset(id, a), r.Ok?)
    {
      if !AssetOk(a) { return Err(Validation); }
      var k := Key(Assets, id);
      var tx :- InsertRow(State(), k, AssetRowFor(a, None));
      // The row was not there, so neither was its ownership.
      var owned := InsertLocalOwnership(tx, k);
      tx := owned.value;
      Commit(IncrementRevision(tx));
      return Ok(());
    }

    method UpdateAsset(id: Id, a: NewAsset) returns (r: Result<(), EditError>)
      requires Valid(State())
      modifies this
      ensures Performed(Edit.UpdateAsset(id, a), r.Ok?)
    {
      var k := Key(Assets, id);
      var _ :- EnsureLocal(State(), k);
      if !AssetOk(a) { return Err(Validation); }
      assert RowOk(k, rows[k]);
      var tx :- UpdateRow(State(), k, AssetRowFor(a, rows[k].displayName));
      Commit(IncrementRevision(tx));
      return Ok(());
    }

    method AddAuthorizedKey(id: Id, name: Name, publicKey: PublicKey, mode: AccessMode, assets: seq<Id>)
      returns (r: Result<(), EditError>)
      requires Valid(State())
      modifies this
      ensures Performed(Edit.AddKey(id, name, publicKey, mode, assets), r.Ok?)
    {
      hide Valid, Clash;
      var distinct := set a | a in assets;
      var known := ValidateAssetIds(State(), distinct);
      if !known { return Err(Validation); }
      var k := Key(AccessKeys, id);
      var tx :- InsertRow(State(), k, NewKeyRow(name, publicKey, mode));
      // The row was not there, so neither were its ownership and grants.
      NothingOfAbsentKey(State(), id);
      var owned := InsertLocalOwnership(tx, k);
      tx := owned.value;
      // The ids were just validated.
      var granted := ReplaceAssignments(tx, id, distinct);
      tx := granted.value;
      Commit(IncrementRevision(tx));
      return Ok(());
    }

    method SetAuthorizedKeyActive(id: Id, active: bool) returns (r: Result<(), EditError>)
      requires Valid(State())
      modifies this
      ensures Performed(Edit.SetActive(id, active), r.Ok?)
    {
      var k := Key(AccessKeys, id);
      var _ :- EnsureLocal(State(), k);
      assert RowOk(k, rows[k]);
      if rows[k].enabled != active {
        var row := rows[k].(enabled := active);
        OwnRowUnclashed(rows, k, row);
        var updated := UpdateRow(State(), k, row);
        Commit(IncrementRevision(updated.value));
      }
      return Ok(());
    }

    method SetAuthorizedKeyAccess(id: Id, mode: AccessMode, assets: seq<Id>) returns (r: Result<(), EditError>)
      requires Valid(State())
      modifies this
      ensures Performed(Edit.SetAccess(id, mode, assets), r.Ok?)
    {
      hide Valid, Unclashed, CredentialExists;
      if mode == All && assets != [] { return Err(Validation); }
      var k := Key(AccessKeys, id);
      var _ :- EnsureLocal(State(), k);
      var distinct := set a | a in assets;
      var known := ValidateAssetIds(State(), distinct);
      if !known { return Err(Validation); }
      LocalKeyWritable(State(), k, mode);
      var row := rows[k].(mode := mode);
      var updated := UpdateRow(State(), k, row);
      var tx := updated.value;
      // The ids were just validated.
      var granted := ReplaceAssignments(tx, id, distinct);
      tx := granted.value;
      Commit(IncrementRevision(tx));
      return Ok(());
    }

    /** Deletes a local credential, asset or access key. */
    method DeleteLocal(k: Key) returns (r: Result<(), EditError>)
      requires Valid(State())
      modifies this
      ensures Performed(Edit.Delete(k), r.Ok?)
    {
      var _ :- EnsureLocal(State(), k);
      assert RowOk(k, rows[k]);
      assert Referenced(rows - {k}, k.id) ==> Referenced(rows, k.id);
      assert k.kind == Credentials && Referenced(rows, k.id) ==> Referenced(rows - {k}, k.id) by {
        if k.kind == Credentials && Referenced(rows, k.id) {
          var j :| j in rows && rows[j].AssetRow? && rows[j].credential == Some(k.id);
          assert j in rows - {k};
        }
      }
      var tx :- InDatabase(DeleteResource(State(), k));
      Commit(IncrementRevision(tx));
      return Ok(());
    }

    /** Finds the asset of the given name; names are unique, so there is at most one. */
    method GetAssetByName(name: Name) returns (found: Option<Id>)
      ensures found.Some? ==> Key(Assets, found.value) in rows && rows[Key(Assets, found.value)].name == name
      ensures found == None ==> forall k :: k in rows && k.kind == Assets ==> rows[k].name != name
    {
      if k :| k in rows && k.kind == Assets && rows[k].name == name {
        return Some(k.id);
      }
      return None;
    }

    /** Remembers why an apply failed, and touches nothing else. */
    method RecordApplyFailure(source: SourceId, code: ErrorCode)
      modifies this
      ensures State() == RecordFailure(old(State()), source, code)
    {
      sources := sources[source := if source in sources then sources[source].(lastError := Some(code))
                                   else Source(0, None, Some(code))];
    }

    /** Reads one table joined with ownership and indexes it by name. */
    method LoadTable(kind: Kind) returns (loaded: map<Ref, Existing>)
      requires UniqueNames(State())
      ensures loaded == LoadKind(State(), kind)
    {
      loaded := map[];
      var todo := rows.Keys;
      while todo != {}
        invariant todo <= rows.Keys
        invariant forall k :: k in rows.Keys - todo && k.kind == kind ==>
          RefOf(k, rows[k]) in loaded && loaded[RefOf(k, rows[k])] == ExistingAt(State(), k)
        invariant forall r :: r in loaded ==> exists k :: k in rows && k.kind == kind && RefOf(k, rows[k]) == r
      {
        var k :| k in todo;
        if k.kind == kind {
          loaded := loaded[RefOf(k, rows[k]) := ExistingAt(State(), k)];
        }
        todo := todo - {k};
      }
    }

    /** Plans a resolved manifest on the current catalog and, unless it is a dry run or nothing changes,
        installs the result in one transaction. */
    method Install(q: Request, base: nat, generation: nat, dryRun: bool, newIds: map<Ref, Id>)
      returns (r: Result<Summary, ErrorCode>, ghost plan: Plan)
      requires Valid(State()) && Resolved(q) && Unused(State(), q, newIds)
      requires base == revision && generation == GenerationOf(State(), q.source)
      modifies this
      ensures Valid(State())
      ensures UniqueNames(old(State())) && LoadedFrom(ContextOf(old(State()), q, newIds), old(State()))
      ensures r.Ok? <==> CanInstall(old(State()), q, newIds, dryRun)
      ensures r.Err? ==> State() == old(State()) && r.error == InstallError(old(State()), q, newIds)
      ensures r.Ok? ==> PlanOf(ContextOf(old(State()), q, newIds), plan)
      ensures r.Ok? ==> r.value == Summarize(plan, q.source, base, generation, dryRun)
      ensures r.Ok? && dryRun ==> State() == old(State())
      ensures r.Ok? && !dryRun ==> AppliesTo(old(State()), q, newIds, State())
    {
      hide Valid, UniqueNames, Resolved, Unused, Load, LoadKind, LoadedFrom, Plannable, Changes, KeyClash, Applied,
           PlanOf, Changed, Summarize, Outcome;
      plan := Plan([], [], [], []);
      ghost var before := State();
      ContextLoaded(before, q, newIds);
      var credentials := LoadTable(Credentials);
      var assets := LoadTable(Assets);
      var keys := LoadTable(AccessKeys);
      LoadedTogether(before);
      var c := Ctx(q.source, q.decls, q.prune, credentials + assets + keys, newIds);
      LoadedParts(c, before);
      var planned := BuildPlan(c);
      if planned.Err? { return Err(planned.error), plan; }
      var p := planned.value;
      var summary := Summarize(p, q.source, base, generation, dryRun);
      ChangedMeansChanges(c, p);
      OutcomeUnfolds(before, q, newIds);
      if dryRun || !Changed(p) { return Ok(summary), p; }
      // The lock: between the first read and here nothing else has run.
      var executed := ExecutePlan(c, p, State(), generation + 1, base + 1);
      if executed.Err? { return Err(ApplyFailed), p; }
      Commit(executed.value);
      return Ok(summary), p;
    }

    /** Applies a manifest under a source name; ids are set aside for what it may create. */
    method Apply(m: Manifest, host: Host, source: SourceId, prune: bool, expected: Option<nat>, dryRun: bool, newIds: map<Ref, Id>)
      returns (r: Result<Summary, ErrorCode>, ghost plan: Plan)
      requires Valid(State())
      requires Resolvable(m, host) ==> Unused(State(), RequestOf(m, host, source, prune), newIds)
      modifies this
      ensures Valid(State())
      ensures Resolvable(m, host) ==>
        UniqueNames(old(State())) && LoadedFrom(ContextOf(old(State()), RequestOf(m, host, source, prune), newIds), old(State()))
      ensures r.Ok? <==>
        && SourceIdOk(source) && (expected.Some? ==> expected.value == old(revision)) && Resolvable(m, host)
        && CanInstall(old(State()), RequestOf(m, host, source, prune), newIds, dryRun)
      ensures r.Err? ==> State() == old(State())
      ensures r.Err? ==> FailsWith(old(State()), m, host, source, prune, expected, newIds, r.error)
      ensures r.Ok? ==> PlanOf(ContextOf(old(State()), RequestOf(m, host, source, prune), newIds), plan)
      ensures r.Ok? ==> r.value == Summarize(plan, source, old(revision), GenerationOf(old(State()), source), dryRun)
      ensures r.Ok? && dryRun ==> State() == old(State())
      ensures r.Ok? && !dryRun ==> AppliesTo(old(State()), RequestOf(m, host, source, prune), newIds, State())
    {
      hide Valid, UniqueNames, Resolved, Unused, Load, LoadedFrom, PlanOf, Summarize, SourceIdOk, Resolvable,
           AppliesTo, CanInstall, InstallError, DeclsOf, ResolvedAt, ContextOf, Ctx.IdsDistinct;
      plan := Plan([], [], [], []);
      if Resolvable(m, host) {
        ResolvableResolved(m, host, source, prune);
        ContextReady(State(), RequestOf(m, host, source, prune), newIds);
      }
      if !SourceIdOk(source) { return Err(InvalidResourceName), plan; }
      var base := revision;
      if expected.Some? && expected.value != base { return Err(RevisionConflict), plan; }
      var generation := GenerationOf(State(), source);
      var resolved := ResolveMaterial(m, host);
      if resolved.Err? { return Err(resolved.error), plan; }
      r, plan := Install(Request(source, resolved.value, prune), base, generation, dryRun, newIds);
    }

    /** What an apply would do, without doing it. */
    method Diff(m: Manifest, host: Host, source: SourceId, prune: bool, newIds: map<Ref, Id>)
      returns (r: Result<Summary, ErrorCode>, ghost plan: Plan)
      requires Valid(State())
      requires Resolvable(m, host) ==> Unused(State(), RequestOf(m, host, source, prune), newIds)
      modifies this
      ensures State() == old(State())
      ensures Resolvable(m, host) ==>
        UniqueNames(State()) && LoadedFrom(ContextOf(State(), RequestOf(m, host, source, prune), newIds), State())
      ensures r.Ok? <==>
        SourceIdOk(source) && Resolvable(m, host) && CanInstall(State(), RequestOf(m, host, source, prune), newIds, true)
      ensures r.Err? ==> FailsWith(State(), m, host, source, prune, None, newIds, r.error)
      ensures r.Ok? ==> PlanOf(ContextOf(State(), RequestOf(m, host, source, prune), newIds), plan)
      ensures r.Ok? ==> r.value == Summarize(plan, source, revision, GenerationOf(State(), source), true)
    {
      hide Valid, UniqueNames, Unused, LoadedFrom, PlanOf, Summarize, SourceIdOk, Resolvable, CanInstall, FailsWith, ContextOf,
           Ctx.IdsDistinct, AppliesTo, DeclsOf;
      if Resolvable(m, host) {
        ResolvableResolved(m, host, source, prune);
        ContextReady(State(), RequestOf(m, host, source, prune), newIds);
      }
      r, plan := Apply(m, host, source, prune, None, true, newIds);
    }
  }

  function RequestOf(m: Manifest, host: Host, source: SourceId, prune: bool): Request
    requires Resolvable(m, host)
  {
    Request(source, DeclsOf(m, host), prune)
  }

  lemma ContextReady(db: Db, q: Request, newIds: map<Ref, Id>)
    requires Valid(db) && Resolved(q) && Unused(db, q, newIds)
    ensures UniqueNames(db) && LoadedFrom(ContextOf(db, q, newIds), db) && ContextOf(db, q, newIds).IdsDistinct()
  {
    ContextLoaded(db, q, newIds);
  }

  ghost predicate CanInstall(db: Db, q: Request, newIds: map<Ref, Id>, dryRun: bool)
    requires UniqueNames(db) && ContextOf(db, q, newIds).IdsDistinct()
  {
    var c := ContextOf(db, q, newIds);
    Plannable(c) && (dryRun || !Changes(c) || !KeyClash(c, db))
  }

  ghost function InstallError(db: Db, q: Request, newIds: map<Ref, Id>): ErrorCode
    requires UniqueNames(db)
  {
    var c := ContextOf(db, q, newIds);
    if !Plannable(c) then PlanError(c) else ApplyFailed
  }

  /** The error of a failed apply, in the order in which it looks for obstacles. */
  ghost predicate FailsWith(db: Db, m: Manifest, host: Host, source: SourceId, prune: bool, expected: Option<nat>,
                            newIds: map<Ref, Id>, error: ErrorCode)
  {
    if !SourceIdOk(source) then error == InvalidResourceName
    else if expected.Some? && expected.value != db.revision then error == RevisionConflict
    else if !Resolvable(m, host) then Unresolved(m, host, error)
    else UniqueNames(db) && error == InstallError(db, RequestOf(m, host, source, prune), newIds)
  }

  lemma OutcomeUnfolds(db: Db, q: Request, newIds: map<Ref, Id>)
    requires UniqueNames(db) && ContextOf(db, q, newIds).IdsDistinct() && Plannable(ContextOf(db, q, newIds))
    ensures var c := ContextOf(db, q, newIds);
      Outcome(db, q, newIds) ==
        if !Changes(c) then Ok(db) else if KeyClash(c, db) then Err(ApplyFailed)
        else Ok(Applied(c, db, GenerationOf(db, q.source) + 1, db.revision + 1))
  {
    hide Plannable, Changes, KeyClash, Applied, Load;
  }
}
