/** What an apply stores, column by column, and what the access keys it stores can reach. */
module Stored {
  import opened Wrappers
  import opened Names
  import opened Schema
  import opened Decisions
  import opened AtomicApply
  import opened Applications
  import opened Histories
  import opened Convergence
  import opened Drift
  import opened AccessScope

  /** The resource of one kind that has the name. */
  ghost predicate Holds(db: Db, k: Key, r: Ref) {
    k in db.rows && k.kind == r.kind && db.rows[k].name == r.name
  }

  /** A secret is stored exactly if there is one, sealed for this row and this column. */
  predicate Sealed(stored: Option<Envelope>, id: Id, field: SecretField, secret: Option<string>) {
    match secret
    case None => stored == None
    case Some(text) => stored.Some? && stored.value.id == id && stored.value.field == field && stored.value.plaintext == text
  }

  /** Every column of the row holds what the declaration says. An asset's credential is the id of the
      credential that now has the declared name; a key is restricted if it was given an allowlist. */
  ghost predicate ColumnsMatch(db: Db, k: Key, spec: Spec)
    requires k in db.rows
  {
    var row := db.rows[k];
    match spec
    case CredentialSpec(authType, username, password, privateKey, passphrase) =>
      && row.CredentialRow? && row.username == username && row.authType == authType
      && Sealed(row.password, k.id, PasswordField, password)
      && Sealed(row.privateKey, k.id, PrivateKeyField, privateKey)
      && Sealed(row.passphrase, k.id, PassphraseField, passphrase)
    case AssetSpec(protocol, host, port, displayName, description, credential) =>
      && row.AssetRow? && row.protocol == protocol && row.host == host && row.port == port
      && row.displayName == displayName && row.description == description
      && (credential == None ==> row.credential == None)
      && (credential.Some? ==>
            row.credential.Some? && Holds(db, Key(Credentials, row.credential.value), Ref(Credentials, credential.value)))
    case AccessSpec(publicKey, enabled, assets) =>
      && row.KeyRow? && row.publicKey == publicKey && row.fingerprint == Sha256(publicKey.blob)
      && row.enabled == enabled && (row.mode == Restricted <==> assets.Some?)
  }

  lemma LoadedHolder(db: Db, r: Ref)
    requires UniqueNames(db) && r in Load(db)
    ensures Holds(db, Key(r.kind, Load(db)[r].id), r)
  {
  }

  lemma HolderLoaded(db: Db, k: Key, r: Ref)
    requires UniqueNames(db) && Holds(db, k, r)
    ensures r in Load(db) && Load(db)[r].id == k.id
  {
    assert RefOf(k, db.rows[k]) == r;
  }

  /** A row as `StoredAsDeclared` has it, read column by column. */
  lemma DeclaredColumns(db: Db, r: Ref, spec: Spec)
    requires UniqueNames(db) && StoredAsDeclared(db, r, spec)
    requires spec.AssetSpec? && spec.credential.Some? ==> Ref(Credentials, spec.credential.value) in Load(db)
    ensures var k := Key(r.kind, Load(db)[r].id);
      && Holds(db, k, r) && ColumnsMatch(db, k, spec) && (db.rows[k].AssetRow? ==> db.rows[k].tags == None)
  {
    LoadedHolder(db, r);
    if spec.AssetSpec? && spec.credential.Some? { LoadedHolder(db, Ref(Credentials, spec.credential.value)); }
    hide UniqueNames, Load;
  }

  lemma MergedColumns(c: Ctx, db: Db, db': Db, r: Ref)
    requires c.Declared(r) && SpecOk(r, c.decls[r].spec) && KeyOf(c, r) in db'.rows
    requires KeyOf(c, r) in db.rows ==> RowOk(KeyOf(c, r), db.rows[KeyOf(c, r)])
    requires db'.rows[KeyOf(c, r)] == Merged(db.rows, c.UpsertOf(r))
    requires var spec := c.decls[r].spec; spec.AssetSpec? && spec.credential.Some? ==>
      Holds(db', Key(Credentials, c.FinalId(Ref(Credentials, spec.credential.value))), Ref(Credentials, spec.credential.value))
    ensures var k := KeyOf(c, r);
      && Holds(db', k, r) && ColumnsMatch(db', k, c.decls[r].spec)
      && (db'.rows[k].AssetRow? ==> db'.rows[k].tags == if k in db.rows && db.rows[k].AssetRow? then db.rows[k].tags else None)
  {
    hide Ctx.FinalId, Ctx.GrantedIds;
  }

  /** Every column of a written resource is as declared, and an asset it overwrites keeps its tags. */
  lemma WrittenColumns(db: Db, q: Request, newIds: map<Ref, Id>, db': Db, r: Ref)
    requires AppliesTo(db, q, newIds, db') && r in q.decls && q.decls[r].Present?
    requires ContextOf(db, q, newIds).Writes(r)
    ensures var k := KeyOf(ContextOf(db, q, newIds), r);
      && Holds(db', k, r) && ColumnsMatch(db', k, q.decls[r].spec)
      && (db'.rows[k].AssetRow? ==> db'.rows[k].tags == if k in db.rows && db.rows[k].AssetRow? then db.rows[k].tags else None)
  {
    hide AppliesTo, UniqueNames, Load, ColumnsMatch, Merged, Ctx.FinalId, Ctx.Survives, Ctx.Writes, Ctx.UpsertOf, SpecOk,
         LoadedFrom, Applied, Changes;
    AppliesCases(db, q, newIds, db');
    OutcomeNames(db, q, newIds, db');
    OutcomeRow(db, q, newIds, db', r);
    SpecFits(db, q, newIds, db', r);
    var c := ContextOf(db, q, newIds);
    var spec := c.decls[r].spec;
    assert c.RefsKnown(r);
    if spec.AssetSpec? && spec.credential.Some? {
      LoadedHolder(db', Ref(Credentials, spec.credential.value));
    }
    MergedColumns(c, db, db', r);
  }

  // ---------- What a stored access key reaches ----------

  /** A disabled key reaches nothing; an enabled one with an allowlist reaches exactly the assets that
      have a listed name; an enabled one without reaches every asset. */
  ghost predicate ReachesAsDeclared(db: Db, key: Id, enabled: bool, assets: Option<set<Name>>) {
    forall a :: KeyCanAccessAsset(db, key, a) <==>
      && enabled && Key(Assets, a) in db.rows
      && (assets.Some? ==> db.rows[Key(Assets, a)].name in assets.value)
  }

  lemma DeclaredReach(db: Db, r: Ref, spec: Spec)
    requires Valid(db) && UniqueNames(db) && StoredAsDeclared(db, r, spec)
    requires spec.AccessSpec? && r.kind == AccessKeys
    requires spec.assets.Some? ==> forall n :: n in spec.assets.value ==> Ref(Assets, n) in Load(db)
    ensures ReachesAsDeclared(db, Load(db)[r].id, spec.enabled, spec.assets)
  {
    DeclaredColumns(db, r, spec);
    var key := Load(db)[r].id;
    forall a ensures KeyCanAccessAsset(db, key, a) <==>
      && spec.enabled && Key(Assets, a) in db.rows
      && (spec.assets.Some? ==> db.rows[Key(Assets, a)].name in spec.assets.value)
    {
      GateInScope(db, key, a);
      if spec.assets.Some? { GrantedByName(db, r, spec, a); }
    }
  }

  /** An asset is granted exactly if its name is listed. */
  lemma GrantedByName(db: Db, r: Ref, spec: Spec, a: Id)
    requires Valid(db) && UniqueNames(db) && StoredAsDeclared(db, r, spec)
    requires spec.AccessSpec? && r.kind == AccessKeys && spec.assets.Some?
    requires forall n :: n in spec.assets.value ==> Ref(Assets, n) in Load(db)
    ensures Grant(Load(db)[r].id, a) in db.allow <==>
      Key(Assets, a) in db.rows && db.rows[Key(Assets, a)].name in spec.assets.value
  {
    var key := Load(db)[r].id;
    hide Valid, UniqueNames, Load;
    if Grant(key, a) in db.allow {
      var n :| n in spec.assets.value && Ref(Assets, n) in Load(db) && a == Load(db)[Ref(Assets, n)].id;
      LoadedHolder(db, Ref(Assets, n));
    }
    if Key(Assets, a) in db.rows && db.rows[Key(Assets, a)].name in spec.assets.value {
      HolderLoaded(db, Key(Assets, a), Ref(Assets, db.rows[Key(Assets, a)].name));
    }
  }

  /** A written access key reaches what was declared. */
  lemma WrittenReach(db: Db, q: Request, newIds: map<Ref, Id>, db': Db, r: Ref)
    requires AppliesTo(db, q, newIds, db') && r in q.decls && q.decls[r].Present? && r.kind == AccessKeys
    requires ContextOf(db, q, newIds).Writes(r)
    ensures q.decls[r].spec.AccessSpec?
    ensures ReachesAsDeclared(db', KeyOf(ContextOf(db, q, newIds), r).id, q.decls[r].spec.enabled, q.decls[r].spec.assets)
  {
    hide AppliesTo, UniqueNames, Load, LoadedFrom, Applied, Changes, Ctx.FinalId, Ctx.Survives, Ctx.Writes, StoredAsDeclared,
         ReachesAsDeclared, Valid;
    AppliesCases(db, q, newIds, db');
    OutcomeValid(db, q, newIds, db');
    OutcomeNames(db, q, newIds, db');
    SpecFits(db, q, newIds, db', r);
    StoredExactly(db, q, newIds, db', r);
    var c := ContextOf(db, q, newIds);
    var spec := c.decls[r].spec;
    assert c.RefsKnown(r) && c.AssetsKnown(spec);
    assert spec.assets.Some? ==> forall n :: n in spec.assets.value ==> Ref(Assets, n) in Load(db');
    DeclaredSurvives(c, r);
    DeclaredReach(db', r, spec);
  }

  lemma DeclaredSurvives(c: Ctx, r: Ref)
    requires c.Declared(r)
    ensures c.Survives(r)
  {
  }

  // ---------- After a pruning apply of a disciplined source, written or skipped ----------

  /** After any history in which the source applied only self-contained manifests, a successful pruning
      apply leaves each declared resource with the declared columns, its allowlist reaching as declared. */
  lemma ConvergedColumns(states: seq<Db>, events: seq<Event>, i: nat, q: Request, newIds: map<Ref, Id>, r: Ref)
    requires Run(states, events) && states[0] == EMPTY && i < |events| && Disciplined(events, q.source)
    requires events[i] == Applying(q, newIds) && q.prune && AppliesTo(states[i], q, newIds, states[i + 1])
    requires r in q.decls && q.decls[r].Present?
    ensures var db' := states[i + 1]; var spec := q.decls[r].spec;
      exists k :: Holds(db', k, r) && OwnedBy(db', q.source, k) && ColumnsMatch(db', k, spec)
        && (db'.rows[k].AssetRow? ==> db'.rows[k].tags == None)
        && (spec.AccessSpec? ==> ReachesAsDeclared(db', k.id, spec.enabled, spec.assets))
  {
    hide Follows, Disciplined, AppliesTo, StoredAsDeclared, OwnsCurrent, ColumnsMatch, LoadedFrom, Applied, Changes, ReachesAsDeclared, UniqueNames, Load, Valid;
    var db', spec := states[i + 1], q.decls[r].spec;
    Converges(states, events, i, q, newIds);
    OutcomeValid(states[i], q, newIds, db');
    OutcomeNames(states[i], q, newIds, db');
    SpecFits(states[i], q, newIds, db', r);
    AppliesCases(states[i], q, newIds, db');
    var c := ContextOf(states[i], q, newIds);
    assert c.RefsKnown(r);
    DeclaredColumns(db', r, spec);
    if spec.AccessSpec? { DeclaredReach(db', r, spec); }
    OwnedHolder(db', q.source, r, spec);
  }

  lemma OwnedHolder(db: Db, source: SourceId, r: Ref, spec: Spec)
    requires UniqueNames(db) && OwnsCurrent(db, source, r, spec)
    ensures r in Load(db) && OwnedBy(db, source, Key(r.kind, Load(db)[r].id))
  {
    var k :| k in db.rows && RefOf(k, db.rows[k]) == r && OwnedBy(db, source, k)
      && !db.owners[k].orphaned && db.owners[k].hash == HashOf(r, spec);
    HolderLoaded(db, k, r);
  }
}
