/** Running a plan statement by statement inside one transaction. */
module Execution {
  import opened Wrappers
  import opened Names
  import opened Schema
  import opened Decisions
  import opened Applications
  import opened AppliedConstraints
  import opened Planner

  predicate GrantsReady(rows: map<Key, Row>, u: Upsert) {
    u.ref.kind == AccessKeys ==> forall a | a in u.grants :: Key(Assets, a) in rows
  }

  /** No statement of the upsert violates a constraint. */
  predicate Accepts(tx: Db, u: Upsert, owner: Owner) {
    && RowOk(u.Key(), u.row) && Unclashed(tx.rows, u.Key(), u.row) && CredentialExists(tx.rows, u.row)
    && GrantsReady(tx.rows, u) && SourceKeyFree(tx.owners, u.Key(), owner)
  }

  function UpsertOne(tx: Db, u: Upsert, owner: Owner): Db {
    tx.(rows := tx.rows[u.Key() := Merged(tx.rows, u)],
        owners := tx.owners[u.Key() := owner],
        allow := if u.ref.kind == AccessKeys then (set g | g in tx.allow && g.key != u.id) + GrantsOf(u)
                 else tx.allow)
  }

  /** Inserts one grant per asset. */
  method InsertGrants(tx: Db, key: Id, assets: set<Id>) returns (r: Result<Db, Violation>)
    requires forall g :: g in tx.allow ==> g.key != key
    requires Key(AccessKeys, key) in tx.rows
    ensures r.Ok? <==> forall a :: a in assets ==> Key(Assets, a) in tx.rows
    ensures r.Ok? ==> r.value == tx.(allow := tx.allow + set a | a in assets :: Grant(key, a))
    ensures r.Err? ==> r.error == ForeignKeyViolation
  {
    var next := tx;
    var rest := assets;
    while rest != {}
      invariant rest <= assets
      invariant next == tx.(allow := tx.allow + set a | a in assets - rest :: Grant(key, a))
      invariant forall a :: a in assets - rest ==> Key(Assets, a) in tx.rows
    {
      var a :| a in rest;
      var inserted := InsertGrant(next, Grant(key, a));
      if inserted.Err? { return Err(inserted.error); }
      next := inserted.value;
      rest := rest - {a};
    }
    return Ok(next);
  }

  /** Writes the row, replaces an access key's grants, then records ownership. */
  method UpsertResource(tx: Db, u: Upsert, owner: Owner) returns (r: Result<Db, Violation>)
    ensures r.Ok? <==> Accepts(tx, u, owner)
    ensures r.Ok? ==> r.value == UpsertOne(tx, u, owner)
    ensures r.Err? && RowOk(u.Key(), u.row) && CredentialExists(tx.rows, u.row) && GrantsReady(tx.rows, u)
      ==> r.error == UniqueViolation
  {
    var k := u.Key();
    assert Unclashed(tx.rows, k, Merged(tx.rows, u)) <==> Unclashed(tx.rows, k, u.row);
    var rows := WriteRow(tx.rows, k, Merged(tx.rows, u));
    if rows.Err? { return Err(rows.error); }
    var next := tx.(rows := rows.value);
    if u.ref.kind == AccessKeys {
      next := next.(allow := set g | g in tx.allow && g.key != u.id);
      var granted := InsertGrants(next, u.id, u.grants);
      if granted.Err? { return Err(granted.error); }
      next := granted.value;
    }
    var owners := WriteOwner(next.owners, k, owner);
    if owners.Err? { return Err(owners.error); }
    return Ok(next.(owners := owners.value));
  }

  // ---------- No foreign key can fail while the upserts run ----------

  /** The upserts with keys in `done` are exactly those that run before `u`. */
  ghost predicate RunBefore(c: Ctx, done: set<Key>, u: Upsert)
    requires c.IdsDistinct()
  {
    && done <= Upserts(c).Keys
    && forall k :: k in Upserts(c) ==> (k in done <==> Earlier(Upserts(c)[k].ref, u.ref))
  }

  lemma StageRow(c: Ctx, db: Db, generation: nat, done: set<Key>, k: Key)
    requires c.IdsDistinct() && done <= Upserts(c).Keys
    ensures var tx := Stage(c, db, generation, done);
      && (k in tx.rows <==> k in db.rows || k in done)
      && (k in tx.rows ==> tx.rows[k] == if k in done then Merged(db.rows, Upserts(c)[k]) else db.rows[k])
      && (k in tx.owners <==> k in db.owners || k in done)
      && (k in tx.owners ==>
            tx.owners[k] == if k in done then OwnerOf(c, Upserts(c)[k], generation) else db.owners[k])
  {
  }

  /** A name an upsert refers to already has its row when the upsert runs. */
  lemma ReferenceReady(c: Ctx, db: Db, generation: nat, done: set<Key>, u: Upsert, q: Ref)
    requires LoadedFrom(c, db) && RunBefore(c, done, u)
    requires c.Survives(q) && Earlier(q, u.ref)
    ensures KeyOf(c, q) in Stage(c, db, generation, done).rows
  {
    hide Stage, Upserts;
    StageRow(c, db, generation, done, KeyOf(c, q));
    if q in c.existing {
      LoadedRef(c, db, q);
    } else {
      UpsertFor(c, q);
    }
  }

  lemma ReferencesReady(c: Ctx, db: Db, generation: nat, done: set<Key>, u: Upsert)
    requires LoadedFrom(c, db) && c.AllRefsKnown() && RunBefore(c, done, u)
    requires c.Writes(u.ref) && u == c.UpsertOf(u.ref)
    ensures CredentialExists(Stage(c, db, generation, done).rows, u.row)
    ensures GrantsReady(Stage(c, db, generation, done).rows, u)
  {
    hide Stage, Upserts, Valid;
    var spec := c.decls[u.ref].spec;
    assert c.RefsKnown(u.ref) && SpecOk(u.ref, spec);
    if spec.AssetSpec? && spec.credential.Some? {
      ReferenceReady(c, db, generation, done, u, Ref(Credentials, spec.credential.value));
    }
    if spec.AccessSpec? && spec.assets.Some? {
      forall n | n in spec.assets.value ensures KeyOf(c, Ref(Assets, n)) in Stage(c, db, generation, done).rows {
        ReferenceReady(c, db, generation, done, u, Ref(Assets, n));
      }
    }
  }

  /** Nothing else holds the upsert's name or source key. */
  lemma NameFree(c: Ctx, db: Db, generation: nat, done: set<Key>, u: Upsert, j: Key)
    requires LoadedFrom(c, db) && done <= Upserts(c).Keys && c.Writes(u.ref) && u == c.UpsertOf(u.ref)
    requires j in Stage(c, db, generation, done).rows && j != u.Key() && j.kind == u.ref.kind
    ensures var tx := Stage(c, db, generation, done);
      && tx.rows[j].name != u.row.name
      && j in tx.owners
      && (tx.owners[j].Declarative? ==> tx.owners[j].sourceKey != u.ref)
  {
    hide Stage, Upserts;
    StageRow(c, db, generation, done, j);
    UpsertFor(c, u.ref);
    UpsertAt(c, u.Key());
    if j in done {
      UpsertAt(c, j);
    } else {
      LoadedRow(c, db, j);
    }
  }

  /** At its turn an upsert's name and source key are free. */
  lemma NamesFree(c: Ctx, db: Db, generation: nat, done: set<Key>, u: Upsert)
    requires LoadedFrom(c, db) && done <= Upserts(c).Keys && c.Writes(u.ref) && u == c.UpsertOf(u.ref)
    ensures var tx := Stage(c, db, generation, done);
      && (forall j :: j in tx.rows && j != u.Key() && j.kind == u.ref.kind ==> tx.rows[j].name != u.row.name)
      && SourceKeyFree(tx.owners, u.Key(), OwnerOf(c, u, generation))
  {
    hide Stage, Upserts, Valid, Ctx.UpsertOf;
    var tx := Stage(c, db, generation, done);
    forall j | j in tx.rows && j != u.Key() && j.kind == u.ref.kind ensures tx.rows[j].name != u.row.name {
      NameFree(c, db, generation, done, u, j);
    }
    forall j | j in tx.owners && j != u.Key() && j.kind == u.ref.kind && tx.owners[j].Declarative?
      ensures tx.owners[j].sourceKey != u.ref
    {
      StageRow(c, db, generation, done, j);
      assert j in tx.rows by { OwnersOfRows(db); }
      NameFree(c, db, generation, done, u, j);
    }
  }

  /** An upsert can fail only on the public key: every other constraint holds at its turn. */
  lemma UpsertReady(c: Ctx, db: Db, generation: nat, done: set<Key>, u: Upsert)
    requires LoadedFrom(c, db) && c.AllRefsKnown() && RunBefore(c, done, u)
    requires c.Writes(u.ref) && u == c.UpsertOf(u.ref)
    ensures var tx := Stage(c, db, generation, done);
      && RowOk(u.Key(), u.row) && CredentialExists(tx.rows, u.row) && GrantsReady(tx.rows, u)
      && SourceKeyFree(tx.owners, u.Key(), OwnerOf(c, u, generation))
      && (Unclashed(tx.rows, u.Key(), u.row) <==> forall j :: !ClashesWith(c, db, u, j))
  {
    hide Stage, Upserts, Valid, SourceKeyFree, CredentialExists, GrantsReady, Ctx.AllRefsKnown;
    LoadedParts(c, db);
    var tx := Stage(c, db, generation, done);
    ReferencesReady(c, db, generation, done, u);
    UpsertFor(c, u.ref);
    UpsertAt(c, u.Key());
    NamesFree(c, db, generation, done, u);
    forall j ensures ClashesWith(c, db, u, j) <==>
      j in tx.rows && j != u.Key() && Clash(u.Key(), u.row, j, tx.rows[j])
    {
      StageRow(c, db, generation, done, j);
      if j in Upserts(c) { UpsertAt(c, j); }
      if j in db.rows { assert RowOk(j, db.rows[j]) by { OwnersOfRows(db); } }
    }
  }

  lemma OwnersOfRows(db: Db)
    requires Valid(db)
    ensures db.owners.Keys == db.rows.Keys
    ensures forall k :: k in db.rows ==> RowOk(k, db.rows[k])
  {
  }

  lemma StageNext(c: Ctx, db: Db, generation: nat, done: set<Key>, u: Upsert)
    requires c.IdsDistinct() && c.DeclsOk() && done <= Upserts(c).Keys
    requires u.Key() in Upserts(c) && u == Upserts(c)[u.Key()] && u.Key() !in done
    ensures UpsertOne(Stage(c, db, generation, done), u, OwnerOf(c, u, generation))
         == Stage(c, db, generation, done + {u.Key()})
  {
    StageGrants(c, db, generation, done, u);
    StageTables(c, db, generation, done, u);
    hide Upserts, Merged, OwnerOf, GrantsOf;
  }

  lemma StageTables(c: Ctx, db: Db, generation: nat, done: set<Key>, u: Upsert)
    requires c.IdsDistinct() && done <= Upserts(c).Keys
    requires u.Key() in Upserts(c) && u == Upserts(c)[u.Key()] && u.Key() !in done
    ensures var one := UpsertOne(Stage(c, db, generation, done), u, OwnerOf(c, u, generation));
      var next := Stage(c, db, generation, done + {u.Key()});
      one.rows == next.rows && one.owners == next.owners
  {
    hide Upserts, Stage;
    var tx := Stage(c, db, generation, done);
    var one := UpsertOne(tx, u, OwnerOf(c, u, generation));
    var next := Stage(c, db, generation, done + {u.Key()});
    StageRow(c, db, generation, done, u.Key());
    forall k ensures k in one.rows <==> k in next.rows
      ensures k in one.owners <==> k in next.owners
      ensures k in one.rows ==> one.rows[k] == next.rows[k]
      ensures k in one.owners ==> one.owners[k] == next.owners[k]
    {
      StageRow(c, db, generation, done, k);
      StageRow(c, db, generation, done + {u.Key()}, k);
    }
  }

  lemma StageGrants(c: Ctx, db: Db, generation: nat, done: set<Key>, u: Upsert)
    requires c.IdsDistinct() && done <= Upserts(c).Keys
    requires u.Key() in Upserts(c) && u == Upserts(c)[u.Key()] && u.Key() !in done
    ensures UpsertOne(Stage(c, db, generation, done), u, OwnerOf(c, u, generation)).allow
         == Stage(c, db, generation, done + {u.Key()}).allow
  {
    hide Upserts;
    var tx := Stage(c, db, generation, done);
    var one := UpsertOne(tx, u, OwnerOf(c, u, generation));
    var next := Stage(c, db, generation, done + {u.Key()});
    forall g ensures g in one.allow <==> g in next.allow {
      var k := Key(AccessKeys, g.key);
      assert g in tx.allow <==> if k in done then g.asset in Upserts(c)[k].grants else g in db.allow;
      assert g in next.allow <==> if k in done + {u.Key()} then g.asset in Upserts(c)[k].grants else g in db.allow;
    }
  }

  // ---------- The whole plan ----------

  lemma PlannedUpsert(c: Ctx, p: Plan, u: Upsert)
    requires c.IdsDistinct() && PlanOf(c, p) && u in p.upserts
    ensures u.Key() in Upserts(c) && Upserts(c)[u.Key()] == u && c.Writes(u.ref) && u == c.UpsertOf(u.ref)
  {
    hide Upserts;
    UpsertFor(c, u.ref);
  }

  lemma EveryUpsertPlanned(c: Ctx, p: Plan, k: Key)
    requires c.IdsDistinct() && c.DeclsOk() && PlanOf(c, p) && k in Upserts(c)
    ensures Upserts(c)[k] in p.upserts
  {
    hide Upserts;
    UpsertAt(c, k);
    assert Upserts(c)[k].ref in c.Universe();
  }

  /** The keys done after a prefix of the planned upserts. */
  ghost predicate DonePrefix(c: Ctx, p: Plan, i: nat, done: set<Key>)
    requires c.IdsDistinct()
  {
    && done <= Upserts(c).Keys
    && forall j :: 0 <= j < |p.upserts| ==> (p.upserts[j].Key() in done <==> j < i)
  }

  lemma PrefixRunsBefore(c: Ctx, p: Plan, i: nat, done: set<Key>)
    requires c.IdsDistinct() && c.DeclsOk() && PlanOf(c, p)
    requires i < |p.upserts| && DonePrefix(c, p, i, done)
    ensures RunBefore(c, done, p.upserts[i])
  {
    hide Upserts;
    forall k | k in Upserts(c) ensures k in done <==> Earlier(Upserts(c)[k].ref, p.upserts[i].ref) {
      EveryUpsertPlanned(c, p, k);
      UpsertAt(c, k);
      var j :| 0 <= j < |p.upserts| && p.upserts[j] == Upserts(c)[k];
      InOrderAt(p.upserts, i, j);
    }
  }

  lemma InOrderAt(upserts: seq<Upsert>, i: nat, j: nat)
    requires InPhases(upserts) && i < |upserts| && j < |upserts|
    ensures j < i <==> Earlier(upserts[j].ref, upserts[i].ref)
  {
    if j >= i {
      if j == i { NameLessIrreflexive(upserts[i].ref.name); } else { EarlierAsym(upserts[i].ref, upserts[j].ref); }
    }
  }

  lemma PrefixNext(c: Ctx, p: Plan, i: nat, done: set<Key>)
    requires c.IdsDistinct() && c.DeclsOk() && PlanOf(c, p)
    requires i < |p.upserts| && DonePrefix(c, p, i, done)
    ensures DonePrefix(c, p, i + 1, done + {p.upserts[i].Key()})
  {
    hide Upserts;
    PlannedUpsert(c, p, p.upserts[i]);
    forall j | 0 <= j < |p.upserts| && p.upserts[j].Key() == p.upserts[i].Key() ensures j == i {
      PlannedUpsert(c, p, p.upserts[j]);
      InOrderAt(p.upserts, i, j);
      InOrderAt(p.upserts, j, i);
      NameLessIrreflexive(p.upserts[i].ref.name);
    }
  }

  method RunUpserts(c: Ctx, p: Plan, db: Db, generation: nat) returns (r: Result<Db, Violation>)
    requires LoadedFrom(c, db) && Plannable(c) && PlanOf(c, p)
    ensures r.Ok? <==> !KeyClash(c, db)
    ensures r.Err? ==> r.error == UniqueViolation
    ensures r.Ok? ==> r.value == Stage(c, db, generation, Upserts(c).Keys)
  {
    hide Upserts, Stage, Valid, UniqueNames, PlanOf, Accepts, RunBefore, ClashesWith, LoadedFrom;
    LoadedParts(c, db);
    var tx := db;
    ghost var done: set<Key> := {};
    StageEmpty(c, db, generation);
    for i := 0 to |p.upserts|
      invariant DonePrefix(c, p, i, done)
      invariant tx == Stage(c, db, generation, done)
      invariant forall j, k :: 0 <= j < i ==> !ClashesWith(c, db, p.upserts[j], k)
    {
      var u := p.upserts[i];
      PlannedUpsert(c, p, u);
      PrefixRunsBefore(c, p, i, done);
      UpsertReady(c, db, generation, done, u);
      AcceptsWhenFree(c, db, tx, u, generation);
      var step := UpsertResource(tx, u, OwnerOf(c, u, generation));
      if step.Err? { return Err(step.error); }
      StageNext(c, db, generation, done, u);
      PrefixNext(c, p, i, done);
      tx := step.value;
      done := done + {u.Key()};
    }
    forall k | k in Upserts(c) ensures k in done && forall j :: !ClashesWith(c, db, Upserts(c)[k], j) {
      EveryUpsertPlanned(c, p, k);
      UpsertAt(c, k);
      var i :| 0 <= i < |p.upserts| && p.upserts[i] == Upserts(c)[k];
    }
    assert done == Upserts(c).Keys;
    return Ok(tx);
  }

  lemma AcceptsWhenFree(c: Ctx, db: Db, tx: Db, u: Upsert, generation: nat)
    requires c.IdsDistinct() && RowOk(u.Key(), u.row) && CredentialExists(tx.rows, u.row) && GrantsReady(tx.rows, u)
    requires SourceKeyFree(tx.owners, u.Key(), OwnerOf(c, u, generation))
    requires Unclashed(tx.rows, u.Key(), u.row) <==> forall j :: !ClashesWith(c, db, u, j)
    ensures Accepts(tx, u, OwnerOf(c, u, generation)) <==> forall j :: !ClashesWith(c, db, u, j)
  {
  }

  lemma StageEmpty(c: Ctx, db: Db, generation: nat)
    requires c.IdsDistinct()
    ensures Stage(c, db, generation, {}) == db
  {
    var tx := Stage(c, db, generation, {});
    assert tx.rows == db.rows && tx.owners == db.owners && tx.allow == db.allow;
  }

  method MarkOrphans(tx: Db, orphans: seq<Target>) returns (r: Db)
    ensures r == tx.(owners := Marked(tx.owners, set t | t in orphans :: t.key))
  {
    r := tx;
    ghost var done: set<Key> := {};
    for i := 0 to |orphans|
      invariant forall k :: k in done <==> exists j :: 0 <= j < i && orphans[j].key == k
      invariant r == tx.(owners := Marked(tx.owners, done))
    {
      r := r.(owners := Marked(r.owners, {orphans[i].key}));
      done := done + {orphans[i].key};
    }
    assert done == set t | t in orphans :: t.key;
  }

  function KeysOfKind(deletes: seq<Target>, kind: Kind): set<Key> {
    set t | t in deletes && t.key.kind == kind :: t.key
  }

  /** Deletes the planned resources of one kind. */
  method DeleteKind(tx: Db, deletes: seq<Target>, kind: Kind) returns (r: Result<Db, Violation>)
    ensures r.Ok? ==> r.value == Without(tx, KeysOfKind(deletes, kind))
    ensures r.Err? ==> kind == Credentials && exists k :: k in KeysOfKind(deletes, kind) && Referenced(tx.rows, k.id)
  {
    var next := tx;
    ghost var done: set<Key> := {};
    WithoutNothing(tx);
    for i := 0 to |deletes|
      invariant forall k :: k in done <==> exists j :: 0 <= j < i && deletes[j].key == k && k.kind == kind
      invariant next == Without(tx, done)
    {
      var t := deletes[i];
      if t.key.kind == kind {
        assert t.key in KeysOfKind(deletes, kind);
        assert Referenced(next.rows - {t.key}, t.key.id) ==> Referenced(tx.rows, t.key.id);
        var deleted := DeleteResource(next, t.key);
        if deleted.Err? { return Err(deleted.error); }
        WithoutTwice(tx, done, {t.key});
        next := deleted.value;
        done := done + {t.key};
      }
    }
    assert done == KeysOfKind(deletes, kind);
    return Ok(next);
  }

  lemma WithoutNothing(db: Db)
    ensures Without(db, {}) == db
  {
    assert db.rows - {} == db.rows && db.owners - {} == db.owners;
    assert WithoutGrants(db.allow, {}) == db.allow;
  }

  lemma TargetsOfPlan(c: Ctx, p: Plan)
    requires PlanOf(c, p)
    ensures forall t: Target :: t in p.orphans <==> c.Orphans(t.ref) && t == c.TargetOf(t.ref)
    ensures forall t: Target :: t in p.deletes <==> c.Deletes(t.ref) && t == c.TargetOf(t.ref)
  {
    forall t: Target | c.Orphans(t.ref) ensures t.ref in c.Universe() { }
    forall t: Target | c.Deletes(t.ref) ensures t.ref in c.Universe() { }
  }

  lemma PlannedTargets(c: Ctx, p: Plan)
    requires c.IdsDistinct() && PlanOf(c, p)
    ensures (set t | t in p.orphans :: t.key) == OrphanKeys(c)
    ensures forall kind :: KeysOfKind(p.deletes, kind) == set k | k in Gone(c) && k.kind == kind
  {
    hide PlanOf, Ctx.IdsDistinct;
    TargetsOfPlan(c, p);
    forall k | k in OrphanKeys(c) ensures exists t :: t in p.orphans && t.key == k {
      var r :| r in c.existing && c.Orphans(r) && KeyOf(c, r) == k;
      assert c.TargetOf(r) in p.orphans;
    }
    forall k | k in Gone(c) ensures exists t :: t in p.deletes && t.key == k {
      var r :| r in c.existing && c.Deletes(r) && KeyOf(c, r) == k;
      assert c.TargetOf(r) in p.deletes;
    }
  }

  /** Once the assets are deleted no asset refers to a credential that is to go. */
  lemma NothingRestricted(c: Ctx, db: Db, generation: nat, rows: map<Key, Row>, k: Key)
    requires LoadedFrom(c, db) && Plannable(c)
    requires k in Gone(c) && k.kind == Credentials
    requires forall j :: j in rows && j.kind == Assets ==>
      j in Stage(c, db, generation, Upserts(c).Keys).rows && j !in Gone(c)
      && rows[j] == Stage(c, db, generation, Upserts(c).Keys).rows[j]
    requires forall j :: j in rows && j.kind != Assets ==> !rows[j].AssetRow?
    ensures !Referenced(rows, k.id)
  {
    hide Stage, Upserts, Gone, Applied, Plannable, LoadedFrom;
    LoadedParts(c, db);
    forall j | j in rows && rows[j].AssetRow? ensures rows[j].credential != Some(k.id) {
      StageRow(c, db, generation, Upserts(c).Keys, j);
      AppliedRow(c, db, generation, 0, j);
      CredentialsStay(c, db, generation, 0, j);
      AppliedRow(c, db, generation, 0, k);
    }
  }

  lemma StageKinds(c: Ctx, db: Db, generation: nat, k: Key)
    requires LoadedFrom(c, db) && k in Stage(c, db, generation, Upserts(c).Keys).rows
    ensures RowOk(k, Stage(c, db, generation, Upserts(c).Keys).rows[k])
  {
    hide Stage, Upserts, LoadedFrom;
    LoadedParts(c, db);
    OwnersOfRows(db);
    StageRow(c, db, generation, Upserts(c).Keys, k);
    if k in Upserts(c) { UpsertAt(c, k); }
  }

  /** Upserts, orphan marks, then deletes of access keys, assets and credentials. The plan installs
      the applied state, and the only thing that can stop it is a public key still in use. */
  method ExecutePlan(c: Ctx, p: Plan, db: Db, generation: nat, revision: nat) returns (r: Result<Db, Violation>)
    requires LoadedFrom(c, db) && Plannable(c) && PlanOf(c, p)
    ensures r.Ok? <==> !KeyClash(c, db)
    ensures r.Err? ==> r.error == UniqueViolation
    ensures r.Ok? ==> r.value == Applied(c, db, generation, revision) && Valid(r.value)
  {
    hide Upserts, Stage, Valid, UniqueNames, PlanOf, Gone, OrphanKeys, KeyClash, LoadedFrom, Plannable, KeysOfKind;
    LoadedParts(c, db);
    var staged := RunUpserts(c, p, db, generation);
    if staged.Err? { return Err(staged.error); }
    PlannedTargets(c, p);
    var marked := MarkOrphans(staged.value, p.orphans);
    var keys := DeleteKind(marked, p.deletes, AccessKeys);
    var assets := DeleteKind(keys.value, p.deletes, Assets);
    forall k | k in KeysOfKind(p.deletes, Credentials) ensures !Referenced(assets.value.rows, k.id) {
      forall j | j in marked.rows ensures RowOk(j, marked.rows[j]) { StageKinds(c, db, generation, j); }
      NothingRestricted(c, db, generation, assets.value.rows, k);
    }
    // RESTRICT has nothing to object to.
    var credentials := DeleteKind(assets.value, p.deletes, Credentials);
    ghost var goneKeys, goneAssets, goneCredentials :=
      KeysOfKind(p.deletes, AccessKeys), KeysOfKind(p.deletes, Assets), KeysOfKind(p.deletes, Credentials);
    WithoutTwice(marked, goneKeys, goneAssets);
    WithoutTwice(marked, goneKeys + goneAssets, goneCredentials);
    assert goneKeys + goneAssets + goneCredentials == Gone(c);
    AppliedValid(c, db, generation, revision);
    return Ok(credentials.value.(
      sources := db.sources[c.source := Source(generation, Some(revision), None)],
      revision := revision));
  }
}
