/** A source whose manifests stand on their own always gets what its last manifest says. */
module Convergence {
  import opened Wrappers
  import opened Names
  import opened Schema
  import opened Decisions
  import opened LocalEdits
  import opened AtomicApply
  import opened Applications
  import opened AppliedConstraints
  import opened Planner
  import opened Histories

  /** The manifest resolves its references by itself, as offline validation demands. */
  predicate SelfContained(q: Request) {
    AllResolve(q.decls, false, {})
  }

  lemma SelfContainedRefs(q: Request, r: Ref)
    requires SelfContained(q) && r in q.decls && q.decls[r].Present?
    ensures var spec := q.decls[r].spec;
      && (spec.AssetSpec? && spec.credential.Some? ==>
            var d := Ref(Credentials, spec.credential.value); d in q.decls && q.decls[d].Present?)
      && (spec.AccessSpec? && spec.assets.Some? ==>
            forall n :: n in spec.assets.value ==> Ref(Assets, n) in q.decls && q.decls[Ref(Assets, n)].Present?)
  {
    assert RefsResolve(q.decls, false, {}, q.decls[r].spec);
    var spec := q.decls[r].spec;
    if spec.AccessSpec? && spec.assets.Some? {
      forall n | n in spec.assets.value ensures Ref(Assets, n) in q.decls && q.decls[Ref(Assets, n)].Present? {
        assert Resolves(q.decls, false, {}, Ref(Assets, n));
      }
    }
  }

  // ---------- The invariant behind the skipped writes ----------

  /** The credential of an asset is the source's own credential of the given name. */
  ghost predicate LinkedTo(db: Db, source: SourceId, credential: Option<Id>, name: Option<Name>) {
    match name
    case None => credential == None
    case Some(n) =>
      && credential.Some? && Key(Credentials, credential.value) in db.rows
      && db.rows[Key(Credentials, credential.value)].name == n
      && OwnedBy(db, source, Key(Credentials, credential.value))
  }

  /** The access key is granted the source's own asset of the given name. */
  ghost predicate GrantedName(db: Db, key: Id, n: Name) {
    exists g :: g in db.allow && g.key == key && Key(Assets, g.asset) in db.rows && db.rows[Key(Assets, g.asset)].name == n
  }

  /** One grant of an access key goes to one of the source's own assets, by a name on its list. */
  ghost predicate GrantListed(db: Db, source: SourceId, g: Grant, names: set<Name>) {
    var a := Key(Assets, g.asset);
    a in db.rows && db.rows[a].name in names && OwnedBy(db, source, a)
  }

  ghost predicate GrantsMatch(db: Db, source: SourceId, key: Id, assets: Option<set<Name>>) {
    var names := if assets.Some? then assets.value else {};
    && (forall g :: g in db.allow && g.key == key ==> GrantListed(db, source, g, names))
    && (forall n :: n in names ==> GrantedName(db, key, n))
  }

  /** The stored resource is what the spec describes. */
  ghost predicate Realizes(db: Db, source: SourceId, k: Key, spec: Spec)
    requires k in db.rows
  {
    var row := db.rows[k];
    && row == Ctx.RowOf(RefOf(k, row), k.id, spec, if row.AssetRow? then row.credential else None)
    && (spec.AssetSpec? ==> row.AssetRow? && LinkedTo(db, source, row.credential, spec.credential))
    && (spec.AccessSpec? ==> k.kind == AccessKeys && GrantsMatch(db, source, k.id, spec.assets))
  }

  /** What the hash of one owned resource says is what is stored. */
  ghost predicate FaithfulAt(db: Db, source: SourceId, k: Key) {
    k in db.rows && OwnedBy(db, source, k) ==>
      && (db.rows[k].AssetRow? ==> db.rows[k].tags == None)
      && (!db.owners[k].orphaned ==>
            && db.owners[k].hash == HashOf(RefOf(k, db.rows[k]), db.owners[k].hash.spec)
            && Realizes(db, source, k, db.owners[k].hash.spec))
  }

  ghost predicate Faithful(db: Db, source: SourceId) {
    forall k :: k in db.rows ==> FaithfulAt(db, source, k)
  }

  // ---------- Other writers keep the invariant ----------

  /** Everything a source owns, and the grants between its resources, is as it was. */
  ghost predicate Keeps(db: Db, db': Db, source: SourceId) {
    KeepsRows(db, db', source) && KeepsGrants(db, db', source)
  }

  ghost predicate KeepsRows(db: Db, db': Db, source: SourceId) {
    && (forall k :: k in db'.rows && OwnedBy(db', source, k) ==> k in db.rows && OwnedBy(db, source, k))
    && (forall k :: k in db.rows && OwnedBy(db, source, k) ==>
          k in db'.rows && db'.rows[k] == db.rows[k] && k in db'.owners && db'.owners[k] == db.owners[k])
  }

  ghost predicate KeepsGrants(db: Db, db': Db, source: SourceId) {
    && (forall g: Grant :: Key(AccessKeys, g.key) in db.rows && OwnedBy(db, source, Key(AccessKeys, g.key)) ==>
          && (g in db'.allow ==> g in db.allow)
          && (g in db.allow && OwnedBy(db, source, Key(Assets, g.asset)) ==> g in db'.allow))
  }

  lemma KeepsMatch(db: Db, db': Db, source: SourceId, key: Id, assets: Option<set<Name>>)
    requires Keeps(db, db', source)
    requires Key(AccessKeys, key) in db.rows && OwnedBy(db, source, Key(AccessKeys, key))
    requires GrantsMatch(db, source, key, assets)
    ensures GrantsMatch(db', source, key, assets)
  {
    var names := if assets.Some? then assets.value else {};
    forall g | g in db'.allow && g.key == key ensures GrantListed(db', source, g, names) {
      assert GrantListed(db, source, g, names);
    }
    forall n | n in names ensures GrantedName(db', key, n) {
      assert GrantedName(db, key, n);
      var g :| g in db.allow && g.key == key && Key(Assets, g.asset) in db.rows && db.rows[Key(Assets, g.asset)].name == n;
      assert GrantListed(db, source, g, names);
      assert g in db'.allow;
    }
  }

  lemma KeepsFaithful(db: Db, db': Db, source: SourceId)
    requires Keeps(db, db', source) && Faithful(db, source)
    ensures Faithful(db', source)
  {
    hide GrantsMatch;
    forall k | k in db'.rows ensures FaithfulAt(db', source, k) {
      if OwnedBy(db', source, k) {
        assert FaithfulAt(db, source, k);
        var spec := db.owners[k].hash.spec;
        if !db.owners[k].orphaned && spec.AccessSpec? {
          KeepsMatch(db, db', source, k.id, spec.assets);
        }
      }
    }
  }

  lemma EditKeepsRows(db: Db, e: Edit, source: SourceId)
    requires Valid(db) && Admits(db, e)
    ensures KeepsRows(db, Effect(db, e), source)
  {
    hide RowsValid, GrantsValid, Unclashed, AssetRowFor, CredentialRowFor, NewKeyRow, MaterialOk, AssetOk, Writable;
  }

  lemma EditKeepsGrants(db: Db, e: Edit, source: SourceId)
    requires Valid(db) && Admits(db, e)
    ensures KeepsGrants(db, Effect(db, e), source)
  {
    hide RowsValid, GrantsValid, Unclashed, AssetRowFor, CredentialRowFor, NewKeyRow, MaterialOk, AssetOk, Writable;
  }

  lemma ForeignApplyKeeps(db: Db, q: Request, newIds: map<Ref, Id>, db': Db, source: SourceId)
    requires AppliesTo(db, q, newIds, db') && q.source != source
    ensures Keeps(db, db', source)
  {
    hide AppliesTo, Applied, Outcome;
    OwnershipFrame(db, q, newIds, db');
    OutcomeParts(db, q, newIds, db');
  }

  lemma OutcomeParts(db: Db, q: Request, newIds: map<Ref, Id>, db': Db)
    requires AppliesTo(db, q, newIds, db')
    ensures db.owners.Keys == db.rows.Keys && db'.owners.Keys == db'.rows.Keys
  {
    OutcomeValid(db, q, newIds, db');
    hide Outcome, Applied, RowsValid, GrantsValid, UniqueNames, LoadedFrom;
  }

  // ---------- The source's own applies keep it too ----------

  /** A declared resource is owned, current and not orphaned after an apply. */
  lemma DeclaredOwned(c: Ctx, db: Db, generation: nat, revision: nat, r: Ref)
    requires LoadedFrom(c, db) && c.AllOwnershipOk() && c.Declared(r)
    ensures var db' := Applied(c, db, generation, revision); var k := KeyOf(c, r);
      && k in db'.rows && RefOf(k, db'.rows[k]) == r
      && OwnedBy(db', c.source, k) && !db'.owners[k].orphaned && db'.owners[k].hash == c.WantedHash(r)
  {
    hide Applied, Valid, UniqueNames;
    AppliedAt(c, db, generation, revision, r);
    if !c.Writes(r) {
      assert c.OwnershipOk(r);
      LoadedRef(c, db, r);
    }
  }

  /** What is owned and not orphaned after an apply was declared. */
  lemma OwnedDeclared(c: Ctx, db: Db, generation: nat, revision: nat, k: Key)
    requires LoadedFrom(c, db) && c.AllOwnershipOk()
    requires k in Applied(c, db, generation, revision).rows
    requires OwnedBy(Applied(c, db, generation, revision), c.source, k)
    requires c.prune || !Applied(c, db, generation, revision).owners[k].orphaned
    ensures var r := RefOf(k, Applied(c, db, generation, revision).rows[k]); c.Declared(r) && KeyOf(c, r) == k
  {
    hide Applied, Valid, UniqueNames;
    AppliedRowName(c, db, generation, revision, k);
    var r := RefOf(k, Applied(c, db, generation, revision).rows[k]);
    AppliedAt(c, db, generation, revision, r);
    if !c.Writes(r) { LoadedRef(c, db, r); }
  }

  lemma LinkedAfter(c: Ctx, db: Db, generation: nat, revision: nat, n: Name)
    requires LoadedFrom(c, db) && c.AllOwnershipOk() && c.Declared(Ref(Credentials, n))
    ensures LinkedTo(Applied(c, db, generation, revision), c.source, Some(c.FinalId(Ref(Credentials, n))), Some(n))
  {
    hide Applied, LoadedFrom;
    DeclaredOwned(c, db, generation, revision, Ref(Credentials, n));
  }

  /** A credential or asset the source owns keeps its id while it is declared. */
  lemma OwnedIdStays(c: Ctx, db: Db, k: Key)
    requires LoadedFrom(c, db) && k in db.rows
    ensures c.FinalId(RefOf(k, db.rows[k])) == k.id
  {
    hide Valid, UniqueNames;
    LoadedRow(c, db, k);
  }

  /** The stored asset links to the credential its declaration names, written or not. */
  lemma AssetRealized(c: Ctx, db: Db, generation: nat, revision: nat, r: Ref)
    requires LoadedFrom(c, db) && c.AllOwnershipOk() && Faithful(db, c.source)
    requires c.Declared(r) && c.decls[r].spec.AssetSpec? && r.kind == Assets
    requires c.decls[r].spec.credential.Some? ==> c.Declared(Ref(Credentials, c.decls[r].spec.credential.value))
    ensures var db' := Applied(c, db, generation, revision); var k := KeyOf(c, r);
      k in db'.rows && Realizes(db', c.source, k, c.decls[r].spec) && db'.rows[k].tags == None
  {
    hide Applied, Valid, UniqueNames, FaithfulAt, Faithful, LinkedTo, Load;
    var spec, k := c.decls[r].spec, KeyOf(c, r);
    AppliedAt(c, db, generation, revision, r);
    CurrentLink(c, db, generation, revision, r);
    if r in c.existing { OwnedUntagged(c, db, r); } else { CreatedIsNew(c, db, r); }
    if !c.Writes(r) { KeptLink(c, db, r); }
  }

  lemma CurrentLink(c: Ctx, db: Db, generation: nat, revision: nat, r: Ref)
    requires LoadedFrom(c, db) && c.AllOwnershipOk()
    requires c.Declared(r) && c.decls[r].spec.AssetSpec?
    requires c.decls[r].spec.credential.Some? ==> c.Declared(Ref(Credentials, c.decls[r].spec.credential.value))
    ensures LinkedTo(Applied(c, db, generation, revision), c.source, c.CredentialId(c.decls[r].spec), c.decls[r].spec.credential)
  {
    hide Applied, LoadedFrom;
    var spec := c.decls[r].spec;
    if spec.credential.Some? { LinkedAfter(c, db, generation, revision, spec.credential.value); }
  }

  lemma OwnedUntagged(c: Ctx, db: Db, r: Ref)
    requires LoadedFrom(c, db) && c.AllOwnershipOk() && Faithful(db, c.source)
    requires r in c.decls && r in c.existing
    ensures KeyOf(c, r) in db.rows && (db.rows[KeyOf(c, r)].AssetRow? ==> db.rows[KeyOf(c, r)].tags == None)
  {
    hide Valid, UniqueNames;
    LoadedRef(c, db, r);
    assert c.OwnershipOk(r) && FaithfulAt(db, c.source, KeyOf(c, r));
  }

  /** An asset whose write is skipped already is what its declaration says. */
  lemma KeptLink(c: Ctx, db: Db, r: Ref)
    requires LoadedFrom(c, db) && c.AllOwnershipOk() && Faithful(db, c.source)
    requires c.Declared(r) && !c.Writes(r) && c.decls[r].spec.AssetSpec?
    ensures var k, spec := KeyOf(c, r), c.decls[r].spec;
      && k in db.rows && db.rows[k].AssetRow? && Realizes(db, c.source, k, spec)
      && db.rows[k].credential == c.CredentialId(spec)
  {
    hide Valid, UniqueNames;
    LoadedRef(c, db, r);
    var k, spec := KeyOf(c, r), c.decls[r].spec;
    assert c.OwnershipOk(r) && FaithfulAt(db, c.source, k);
    if spec.credential.Some? {
      OwnedIdStays(c, db, Key(Credentials, db.rows[k].credential.value));
    }
  }

  /** The stored access key is granted exactly the assets its declaration lists. */
  lemma GrantsRealized(c: Ctx, db: Db, generation: nat, revision: nat, r: Ref)
    requires LoadedFrom(c, db) && c.AllOwnershipOk() && Faithful(db, c.source)
    requires c.Declared(r) && c.decls[r].spec.AccessSpec? && r.kind == AccessKeys
    requires var spec := c.decls[r].spec; spec.assets.Some? ==>
      forall n :: n in spec.assets.value ==> c.Declared(Ref(Assets, n))
    ensures GrantsMatch(Applied(c, db, generation, revision), c.source, c.FinalId(r), c.decls[r].spec.assets)
  {
    hide Applied, Upserts, Gone, Valid, UniqueNames;
    var db', spec, id := Applied(c, db, generation, revision), c.decls[r].spec, c.FinalId(r);
    var names := if spec.assets.Some? then spec.assets.value else {};
    GoneAt(c, r);
    forall n | n in names ensures GrantedName(db', id, n) && GrantListed(db', c.source, Grant(id, c.FinalId(Ref(Assets, n))), names) {
      var a := Ref(Assets, n);
      DeclaredOwned(c, db, generation, revision, a);
      GoneAt(c, a);
      var g := Grant(id, c.FinalId(a));
      AppliedGrant(c, db, generation, revision, g);
      if c.Writes(r) { UpsertFor(c, r); } else { KeptGrant(c, db, r, n); }
      assert g in db'.allow;
    }
    forall g | g in db'.allow && g.key == id ensures GrantListed(db', c.source, g, names) {
      AppliedGrant(c, db, generation, revision, g);
      if c.Writes(r) { UpsertFor(c, r); } else { KeptGrants(c, db, r, g); }
    }
  }

  /** An access key whose write is skipped already has the grant for each listed name. */
  lemma KeptGrant(c: Ctx, db: Db, r: Ref, n: Name)
    requires LoadedFrom(c, db) && c.AllOwnershipOk() && Faithful(db, c.source)
    requires c.Declared(r) && !c.Writes(r) && r.kind == AccessKeys && c.decls[r].spec.AccessSpec?
    requires c.decls[r].spec.assets.Some? && n in c.decls[r].spec.assets.value
    ensures Grant(c.FinalId(r), c.FinalId(Ref(Assets, n))) in db.allow
  {
    hide Valid, UniqueNames, GrantListed;
    LoadedRef(c, db, r);
    assert c.OwnershipOk(r) && FaithfulAt(db, c.source, KeyOf(c, r));
    assert GrantedName(db, c.FinalId(r), n);
    var g :| g in db.allow && g.key == c.FinalId(r) && Key(Assets, g.asset) in db.rows && db.rows[Key(Assets, g.asset)].name == n;
    OwnedIdStays(c, db, Key(Assets, g.asset));
  }

  /** ... and no other. */
  lemma KeptGrants(c: Ctx, db: Db, r: Ref, g: Grant)
    requires LoadedFrom(c, db) && c.AllOwnershipOk() && Faithful(db, c.source)
    requires c.Declared(r) && !c.Writes(r) && r.kind == AccessKeys && c.decls[r].spec.AccessSpec?
    requires g in db.allow && g.key == c.FinalId(r)
    ensures c.decls[r].spec.assets.Some? && Key(Assets, g.asset) in db.rows
    ensures db.rows[Key(Assets, g.asset)].name in c.decls[r].spec.assets.value
    ensures g.asset == c.FinalId(Ref(Assets, db.rows[Key(Assets, g.asset)].name))
  {
    hide Valid, UniqueNames, GrantedName;
    LoadedRef(c, db, r);
    assert c.OwnershipOk(r) && FaithfulAt(db, c.source, KeyOf(c, r));
    assert GrantListed(db, c.source, g, if c.decls[r].spec.assets.Some? then c.decls[r].spec.assets.value else {});
    OwnedIdStays(c, db, Key(Assets, g.asset));
  }

  /** References inside a self-contained manifest are declared. */
  ghost predicate RefsDeclared(c: Ctx) {
    forall r :: c.Declared(r) ==>
      && (c.decls[r].spec.AssetSpec? && c.decls[r].spec.credential.Some? ==>
            c.Declared(Ref(Credentials, c.decls[r].spec.credential.value)))
      && (c.decls[r].spec.AccessSpec? && c.decls[r].spec.assets.Some? ==>
            forall n :: n in c.decls[r].spec.assets.value ==> c.Declared(Ref(Assets, n)))
  }

  lemma SelfContainedDeclares(q: Request, c: Ctx)
    requires SelfContained(q) && c.decls == q.decls
    ensures RefsDeclared(c)
  {
    hide SelfContained;
    forall r | c.Declared(r)
      ensures c.decls[r].spec.AssetSpec? && c.decls[r].spec.credential.Some? ==>
        c.Declared(Ref(Credentials, c.decls[r].spec.credential.value))
      ensures c.decls[r].spec.AccessSpec? && c.decls[r].spec.assets.Some? ==>
        forall n :: n in c.decls[r].spec.assets.value ==> c.Declared(Ref(Assets, n))
    {
      SelfContainedRefs(q, r);
    }
  }

  /** A declared resource is stored as declared, whether or not its write was skipped. */
  lemma DeclaredRealized(c: Ctx, db: Db, generation: nat, revision: nat, r: Ref)
    requires LoadedFrom(c, db) && c.AllOwnershipOk() && Faithful(db, c.source) && RefsDeclared(c)
    requires c.Declared(r)
    ensures var db' := Applied(c, db, generation, revision); var k := KeyOf(c, r);
      k in db'.rows && Realizes(db', c.source, k, c.decls[r].spec) && (db'.rows[k].AssetRow? ==> db'.rows[k].tags == None)
  {
    hide Applied, Valid, UniqueNames, Load, LinkedTo, GrantsMatch, Faithful, FaithfulAt;
    var spec, k := c.decls[r].spec, KeyOf(c, r);
    assert SpecOk(r, spec);
    match spec
    case AssetSpec(_, _, _, _, _, _) => AssetRealized(c, db, generation, revision, r);
    case CredentialSpec(_, _, _, _, _) => RowRealized(c, db, generation, revision, r);
    case AccessSpec(_, _, _) =>
      RowRealized(c, db, generation, revision, r);
      GrantsRealized(c, db, generation, revision, r);
  }

  lemma RowRealized(c: Ctx, db: Db, generation: nat, revision: nat, r: Ref)
    requires LoadedFrom(c, db) && c.AllOwnershipOk() && Faithful(db, c.source)
    requires c.Declared(r) && !c.decls[r].spec.AssetSpec?
    ensures var db' := Applied(c, db, generation, revision); var k := KeyOf(c, r);
      k in db'.rows && db'.rows[k] == Ctx.RowOf(r, k.id, c.decls[r].spec, None)
  {
    hide Applied, Valid, UniqueNames, Load;
    AppliedAt(c, db, generation, revision, r);
    if !c.Writes(r) {
      LoadedRef(c, db, r);
      assert c.OwnershipOk(r) && FaithfulAt(db, c.source, KeyOf(c, r));
    }
  }

  lemma AppliedFaithfulAt(c: Ctx, db: Db, generation: nat, revision: nat, k: Key)
    requires LoadedFrom(c, db) && c.AllOwnershipOk() && Faithful(db, c.source) && RefsDeclared(c)
    requires k in Applied(c, db, generation, revision).rows
    ensures FaithfulAt(Applied(c, db, generation, revision), c.source, k)
  {
    hide Applied, Valid, UniqueNames, Load, Realizes, RefsDeclared, Faithful;
    var db' := Applied(c, db, generation, revision);
    if OwnedBy(db', c.source, k) {
      AppliedRowName(c, db, generation, revision, k);
      var r := RefOf(k, db'.rows[k]);
      if c.Declared(r) {
        DeclaredOwned(c, db, generation, revision, r);
        DeclaredRealized(c, db, generation, revision, r);
      } else {
        UndeclaredUntagged(c, db, generation, revision, r);
        if !db'.owners[k].orphaned { OwnedDeclared(c, db, generation, revision, k); }
      }
    }
  }

  lemma UndeclaredUntagged(c: Ctx, db: Db, generation: nat, revision: nat, r: Ref)
    requires LoadedFrom(c, db) && Faithful(db, c.source) && c.Survives(r) && !c.Declared(r)
    requires OwnedBy(Applied(c, db, generation, revision), c.source, KeyOf(c, r))
    ensures var db' := Applied(c, db, generation, revision); var k := KeyOf(c, r);
      k in db'.rows && (db'.rows[k].AssetRow? ==> db'.rows[k].tags == None)
  {
    hide Applied, Valid, UniqueNames, Load, Realizes;
    AppliedAt(c, db, generation, revision, r);
    LoadedRef(c, db, r);
    assert FaithfulAt(db, c.source, KeyOf(c, r));
  }

  lemma OwnApplyFaithful(db: Db, q: Request, newIds: map<Ref, Id>, db': Db)
    requires AppliesTo(db, q, newIds, db') && SelfContained(q) && Faithful(db, q.source)
    ensures Faithful(db', q.source)
  {
    hide Applied, LoadedFrom, KeyClash, Valid, UniqueNames, Changes, Resolved, Unused, Load, Plannable, SelfContained,
         FaithfulAt, RefsDeclared;
    var c := ContextOf(db, q, newIds);
    if Changes(c) {
      PlannableParts(c);
      SelfContainedDeclares(q, c);
      forall k | k in db'.rows ensures FaithfulAt(db', q.source, k) {
        AppliedFaithfulAt(c, db, GenerationOf(db, q.source) + 1, db.revision + 1, k);
      }
    }
  }

  // ---------- All histories ----------

  /** Every manifest the source applies stands on its own. */
  ghost predicate Disciplined(events: seq<Event>, source: SourceId) {
    forall i :: 0 <= i < |events| && events[i].Applying? && events[i].request.source == source ==>
      SelfContained(events[i].request)
  }

  lemma StepFaithful(db: Db, e: Event, db': Db, source: SourceId)
    requires Follows(db, e, db') && Faithful(db, source)
    requires e.Applying? && e.request.source == source ==> SelfContained(e.request)
    ensures Faithful(db', source)
  {
    hide Faithful, Keeps, Outcome, AppliesTo;
    match e
    case Editing(edit) =>
      if Admits(db, edit) {
        EditKeeps(db, edit, source);
        KeepsFaithful(db, db', source);
      }
    case Failing(s, code) => FailureFaithful(db, s, code, source);
    case Applying(q, newIds) =>
      ApplyStep(db, q, newIds);
      if db' != db {
        if q.source == source {
          OwnApplyFaithful(db, q, newIds, db');
        } else {
          ForeignApplyKeeps(db, q, newIds, db', source);
          KeepsFaithful(db, db', source);
        }
      }
  }

  lemma EditKeeps(db: Db, e: Edit, source: SourceId)
    requires Valid(db) && Admits(db, e)
    ensures Keeps(db, Effect(db, e), source)
  {
    EditKeepsRows(db, e, source);
    EditKeepsGrants(db, e, source);
    hide Effect, KeepsRows, KeepsGrants;
  }

  lemma FailureFaithful(db: Db, s: SourceId, code: ErrorCode, source: SourceId)
    requires Faithful(db, source)
    ensures Faithful(RecordFailure(db, s, code), source)
  {
    KeepsFaithful(db, RecordFailure(db, s, code), source);
  }

  /** In every state of a run from the empty catalog, whatever mix of local edits, failures and other
      sources' applies it holds, the source's hashes describe what is stored. */
  lemma {:induction false} RunFaithful(states: seq<Db>, events: seq<Event>, i: nat, source: SourceId)
    requires Run(states, events) && states[0] == EMPTY && i < |states| && Disciplined(events, source)
    ensures Faithful(states[i], source)
  {
    hide Follows, Valid, Faithful, SelfContained;
    if i == 0 {
      NothingToBelie(source);
    } else {
      RunFaithful(states, events, i - 1, source);
      StepFaithful(states[i - 1], events[i - 1], states[i], source);
    }
  }

  lemma NothingToBelie(source: SourceId)
    ensures Faithful(EMPTY, source)
  {
  }

  /** The resource as declared, its references replaced by the ids now behind the declared names. */
  ghost predicate StoredAsDeclared(db: Db, r: Ref, spec: Spec)
    requires UniqueNames(db)
  {
    && r in Load(db)
    && var k := Key(r.kind, Load(db)[r].id);
    && k in db.rows
    && db.rows[k] == Ctx.RowOf(r, k.id, spec, CurrentCredential(db, spec))
    && (spec.AccessSpec? ==>
          forall a :: Grant(k.id, a) in db.allow <==>
            spec.assets.Some? && exists n :: n in spec.assets.value && Ref(Assets, n) in Load(db) && a == Load(db)[Ref(Assets, n)].id)
  }

  ghost function CurrentCredential(db: Db, spec: Spec): Option<Id>
    requires UniqueNames(db)
  {
    if spec.AssetSpec? && spec.credential.Some? && Ref(Credentials, spec.credential.value) in Load(db)
    then Some(Load(db)[Ref(Credentials, spec.credential.value)].id)
    else None
  }

  /** After a successful pruning apply the source owns exactly what the manifest declares present,
      current and not orphaned. */
  ghost predicate OwnsExactly(db: Db, q: Request) {
    && (forall k :: k in db.rows && OwnedBy(db, q.source, k) ==>
          RefOf(k, db.rows[k]) in q.decls && q.decls[RefOf(k, db.rows[k])].Present?)
    && (forall r :: r in q.decls && q.decls[r].Present? ==> OwnsCurrent(db, q.source, r, q.decls[r].spec))
  }

  ghost predicate OwnsCurrent(db: Db, source: SourceId, r: Ref, spec: Spec) {
    exists k :: k in db.rows && RefOf(k, db.rows[k]) == r && OwnedBy(db, source, k)
      && !db.owners[k].orphaned && db.owners[k].hash == HashOf(r, spec)
  }

  lemma PruneOwnsExactly(db: Db, q: Request, newIds: map<Ref, Id>, db': Db)
    requires AppliesTo(db, q, newIds, db') && q.prune
    ensures OwnsExactly(db', q)
  {
    hide Applied, LoadedFrom, KeyClash, Valid, UniqueNames, Changes, Resolved, Unused, Load, Plannable;
    var c := ContextOf(db, q, newIds);
    PlannableParts(c);
    if Changes(c) {
      var generation, revision := GenerationOf(db, q.source) + 1, db.revision + 1;
      forall k | k in db'.rows && OwnedBy(db', q.source, k)
        ensures RefOf(k, db'.rows[k]) in q.decls && q.decls[RefOf(k, db'.rows[k])].Present?
      {
        OwnedDeclared(c, db, generation, revision, k);
      }
      forall r | r in q.decls && q.decls[r].Present? ensures OwnsCurrent(db', q.source, r, q.decls[r].spec) {
        DeclaredOwned(c, db, generation, revision, r);
      }
    } else {
      NoChanges(c);
      UnchangedOwnsExactly(c, db, q);
    }
  }

  lemma UnchangedOwnsExactly(c: Ctx, db: Db, q: Request)
    requires LoadedFrom(c, db) && c.AllOwnershipOk() && q == Request(c.source, c.decls, true) && c.prune
    requires forall r :: c.Covered(r) ==> c.ActionOf(r) == Unchanged
    ensures OwnsExactly(db, q)
  {
    hide Valid, UniqueNames, Load;
    forall k | k in db.rows && OwnedBy(db, q.source, k)
      ensures RefOf(k, db.rows[k]) in q.decls && q.decls[RefOf(k, db.rows[k])].Present?
    {
      LoadedRow(c, db, k);
      assert c.Covered(RefOf(k, db.rows[k]));
    }
    forall r | r in q.decls && q.decls[r].Present? ensures OwnsCurrent(db, q.source, r, q.decls[r].spec) {
      assert c.Covered(r) && c.OwnershipOk(r);
      LoadedRef(c, db, r);
    }
  }

  lemma LoadAt(db: Db, k: Key)
    requires UniqueNames(db) && k in db.rows
    ensures RefOf(k, db.rows[k]) in Load(db) && Load(db)[RefOf(k, db.rows[k])].id == k.id
  {
  }

  /** A faithful owner's current resource is stored as its hash's spec describes, by current ids. */
  lemma CurrentIsStored(db: Db, source: SourceId, r: Ref, spec: Spec)
    requires UniqueNames(db) && Faithful(db, source) && OwnsCurrent(db, source, r, spec)
    ensures StoredAsDeclared(db, r, spec)
  {
    hide Load, UniqueNames, Faithful;
    var k :| k in db.rows && RefOf(k, db.rows[k]) == r && OwnedBy(db, source, k)
      && !db.owners[k].orphaned && db.owners[k].hash == HashOf(r, spec);
    assert FaithfulAt(db, source, k) by { FaithfulEverywhere(db, source, k); }
    LoadAt(db, k);
    if spec.AssetSpec? && spec.credential.Some? { LoadAt(db, Key(Credentials, db.rows[k].credential.value)); }
    if spec.AccessSpec? {
      var names := if spec.assets.Some? then spec.assets.value else {};
      forall a | Grant(k.id, a) in db.allow
        ensures exists n :: n in names && Ref(Assets, n) in Load(db) && a == Load(db)[Ref(Assets, n)].id
      {
        assert GrantListed(db, source, Grant(k.id, a), names);
        LoadAt(db, Key(Assets, a));
      }
      forall n | n in names && Ref(Assets, n) in Load(db) ensures Grant(k.id, Load(db)[Ref(Assets, n)].id) in db.allow {
        assert GrantedName(db, k.id, n);
        var g :| g in db.allow && g.key == k.id && Key(Assets, g.asset) in db.rows && db.rows[Key(Assets, g.asset)].name == n;
        LoadAt(db, Key(Assets, g.asset));
      }
    }
  }

  lemma FaithfulEverywhere(db: Db, source: SourceId, k: Key)
    requires Faithful(db, source) && k in db.rows
    ensures FaithfulAt(db, source, k)
  {
  }

  /** Convergence: after any history in which the source applied only self-contained manifests, a
      successful pruning apply leaves it owning exactly the declared resources, each stored as
      declared with references resolved to current ids, even where its write was skipped. */
  lemma Converges(states: seq<Db>, events: seq<Event>, i: nat, q: Request, newIds: map<Ref, Id>)
    requires Run(states, events) && states[0] == EMPTY && i < |events|
    requires Disciplined(events, q.source)
    requires events[i] == Applying(q, newIds) && q.prune && AppliesTo(states[i], q, newIds, states[i + 1])
    ensures var db' := states[i + 1];
      && OwnsExactly(db', q) && UniqueNames(db')
      && forall r :: r in q.decls && q.decls[r].Present? ==> StoredAsDeclared(db', r, q.decls[r].spec)
  {
    hide Follows, AppliesTo, Valid, Faithful, SelfContained, StoredAsDeclared, OwnsCurrent, Disciplined, UniqueNames;
    var db' := states[i + 1];
    RunFaithful(states, events, i + 1, q.source);
    PruneOwnsExactly(states[i], q, newIds, db');
    OutcomeValid(states[i], q, newIds, db');
    forall r | r in q.decls && q.decls[r].Present? ensures StoredAsDeclared(db', r, q.decls[r].spec) {
      CurrentIsStored(db', q.source, r, q.decls[r].spec);
    }
  }
}
