/** An apply as one atomic step: plan on the current catalog and install the result. */
module AtomicApply {
  import opened Wrappers
  import opened Names
  import opened Schema
  import opened Decisions
  import opened Applications
  import opened AppliedConstraints
  import opened Planner

  datatype Request = Request(source: SourceId, decls: map<Ref, Decl>, prune: bool)

  /** What resolving a manifest's material guarantees. */
  ghost predicate Resolved(q: Request) {
    forall r :: r in q.decls && q.decls[r].Present? ==> SpecOk(r, q.decls[r].spec)
  }

  /** New ids are distinct and used by no resource of the catalog. */
  ghost predicate Unused(db: Db, q: Request, newIds: map<Ref, Id>) {
    && newIds.Keys == q.decls.Keys
    && (forall r, s :: r in newIds && s in newIds && r != s ==> newIds[r] != newIds[s])
    && (forall r :: r in newIds ==> Key(r.kind, newIds[r]) !in db.rows)
  }

  ghost function ContextOf(db: Db, q: Request, newIds: map<Ref, Id>): Ctx
    requires UniqueNames(db)
  {
    Ctx(q.source, q.decls, q.prune, Load(db), newIds)
  }

  lemma ContextLoaded(db: Db, q: Request, newIds: map<Ref, Id>)
    requires Valid(db) && Resolved(q) && Unused(db, q, newIds)
    ensures UniqueNames(db) && LoadedFrom(ContextOf(db, q, newIds), db)
  {
    ValidUniqueNames(db);
    hide Valid, UniqueNames;
    var c := ContextOf(db, q, newIds);
    forall r | r in c.existing ensures Key(r.kind, c.existing[r].id) in db.rows {
    }
  }

  ghost predicate Changes(c: Ctx) {
    exists r :: c.Covered(r) && c.ActionOf(r) != Unchanged
  }

  function GenerationOf(db: Db, source: SourceId): nat {
    if source in db.sources then db.sources[source].generation else 0
  }

  /** The outcome of an apply that meets no concurrent writer. */
  ghost function Outcome(db: Db, q: Request, newIds: map<Ref, Id>): Result<Db, ErrorCode>
    requires UniqueNames(db) && ContextOf(db, q, newIds).IdsDistinct()
  {
    var c := ContextOf(db, q, newIds);
    if !Plannable(c) then Err(PlanError(c))
    else if !Changes(c) then Ok(db)
    else if KeyClash(c, db) then Err(ApplyFailed)
    else Ok(Applied(c, db, GenerationOf(db, q.source) + 1, db.revision + 1))
  }

  /** The setting all results below share: `db` becomes `db'` by a successful apply. */
  ghost predicate AppliesTo(db: Db, q: Request, newIds: map<Ref, Id>, db': Db) {
    && Valid(db) && Resolved(q) && Unused(db, q, newIds) && UniqueNames(db)
    && LoadedFrom(ContextOf(db, q, newIds), db)
    && Outcome(db, q, newIds) == Ok(db')
  }

  /** A successful apply installs the applied state if there are changes, and nothing if not. */
  lemma AppliesCases(db: Db, q: Request, newIds: map<Ref, Id>, db': Db)
    requires AppliesTo(db, q, newIds, db')
    ensures UniqueNames(db)
    ensures var c := ContextOf(db, q, newIds);
      && c.source == q.source && c.IdsDistinct() && LoadedFrom(c, db)
      && db' == if Changes(c) then Applied(c, db, GenerationOf(db, q.source) + 1, db.revision + 1) else db
  {
    hide Applied, KeyClash, Valid, UniqueNames, Resolved, Unused, Load, Plannable, Changes;
  }

  lemma OutcomeValid(db: Db, q: Request, newIds: map<Ref, Id>, db': Db)
    requires AppliesTo(db, q, newIds, db')
    ensures Valid(db') && UniqueNames(db')
  {
    hide Applied, LoadedFrom, Valid, UniqueNames, Plannable, KeyClash, Changes, Resolved, Unused;
    var c := ContextOf(db, q, newIds);
    if Changes(c) {
      AppliedValid(c, db, GenerationOf(db, q.source) + 1, db.revision + 1);
    }
    ValidUniqueNames(db');
  }

  /** Planning touches only what the source owns. */
  lemma TouchedOwned(c: Ctx, db: Db, r: Ref)
    requires LoadedFrom(c, db) && c.AllOwnershipOk() && r in c.existing
    requires c.Writes(r) || c.Deletes(r) || c.Orphans(r)
    ensures OwnedBy(db, c.source, KeyOf(c, r))
  {
    hide Valid;
    LoadedRef(c, db, r);
    assert r in c.decls ==> c.OwnershipOk(r);
  }

  // ---------- What loading finds after an apply ----------

  ghost function OwnerAfter(c: Ctx, r: Ref, generation: nat): Option<Owner>
    requires c.Survives(r)
  {
    if c.Writes(r) then Some(OwnerOf(c, c.UpsertOf(r), generation))
    else if c.Orphans(r) then Some(c.existing[r].owner.value.(orphaned := true))
    else c.existing[r].owner
  }

  lemma LoadedAfter(c: Ctx, db: Db, generation: nat, revision: nat, r: Ref)
    requires LoadedFrom(c, db)
    ensures UniqueNames(Applied(c, db, generation, revision))
    ensures var after := Load(Applied(c, db, generation, revision));
      && (r in after <==> c.Survives(r))
      && (r in after ==> after[r].id == c.FinalId(r) && after[r].owner == OwnerAfter(c, r, generation))
  {
    hide Applied;
    AppliedNames(c, db, generation, revision);
    if c.Survives(r) {
      AppliedAt(c, db, generation, revision, r);
      if !c.Writes(r) { LoadedRef(c, db, r); }
      LoadedRowAfter(c, db, generation, revision, r);
    }
  }

  lemma LoadedRowAfter(c: Ctx, db: Db, generation: nat, revision: nat, r: Ref)
    requires LoadedFrom(c, db) && c.Survives(r) && UniqueNames(Applied(c, db, generation, revision))
    ensures var db' := Applied(c, db, generation, revision); var k := KeyOf(c, r);
      k in db'.rows && r in Load(db') && Load(db')[r] == ExistingAt(db', k)
  {
    hide Applied, LoadedFrom;
    AppliedAt(c, db, generation, revision, r);
  }

  // ---------- Idempotence ----------

  lemma SettledAfter(c: Ctx, db: Db, generation: nat, revision: nat, c': Ctx, r: Ref)
    requires LoadedFrom(c, db) && c.AllOwnershipOk()
    requires UniqueNames(Applied(c, db, generation, revision))
    requires c' == c.(existing := Load(Applied(c, db, generation, revision)), newIds := c'.newIds)
    ensures !c'.Deletes(r) && (c'.Covered(r) ==> c'.ActionOf(r) == Unchanged)
    ensures c'.Survives(r) <==> c.Survives(r)
    ensures c'.OwnershipOk(r)
  {
    hide Applied, LoadedFrom;
    LoadedAfter(c, db, generation, revision, r);
    assert c.OwnershipOk(r);
  }

  /** Applying the same manifest again changes nothing and reports nothing but Unchanged. */
  lemma ApplyIdempotent(db: Db, q: Request, newIds: map<Ref, Id>, db': Db, newIds': map<Ref, Id>)
    requires AppliesTo(db, q, newIds, db') && Unused(db', q, newIds')
    ensures Valid(db') && UniqueNames(db') && LoadedFrom(ContextOf(db', q, newIds'), db')
    ensures Outcome(db', q, newIds') == Ok(db')
    ensures var c' := ContextOf(db', q, newIds'); forall r :: c'.Covered(r) ==> c'.ActionOf(r) == Unchanged
  {
    hide Applied, LoadedFrom, Valid, UniqueNames, KeyClash, Changes, Resolved, Unused, Load, Plannable;
    OutcomeValid(db, q, newIds, db');
    ContextLoaded(db', q, newIds');
    LoadedParts(ContextOf(db', q, newIds'), db');
    var c, c' := ContextOf(db, q, newIds), ContextOf(db', q, newIds');
    if Changes(c) {
      SettledPlan(c, db, GenerationOf(db, q.source) + 1, db.revision + 1, c');
    } else {
      UnchangedPlan(c, c');
    }
    NoChanges(c');
  }

  lemma NoChanges(c: Ctx)
    requires !Changes(c)
    ensures forall r :: c.Covered(r) ==> c.ActionOf(r) == Unchanged
  {
  }

  lemma SettledPlan(c: Ctx, db: Db, generation: nat, revision: nat, c': Ctx)
    requires LoadedFrom(c, db) && Plannable(c)
    requires UniqueNames(Applied(c, db, generation, revision))
    requires c' == c.(existing := Load(Applied(c, db, generation, revision)), newIds := c'.newIds)
    ensures Plannable(c') && !Changes(c')
  {
    hide Applied, LoadedFrom;
    forall r ensures !c'.Deletes(r) && (c'.Covered(r) ==> c'.ActionOf(r) == Unchanged)
      ensures (c'.Survives(r) <==> c.Survives(r)) && c'.OwnershipOk(r)
    {
      SettledAfter(c, db, generation, revision, c', r);
    }
    forall r | r in c'.decls ensures c'.RefsKnown(r) {
      assert c.RefsKnown(r);
    }
  }

  /** A plan without changes looks the same whatever ids are set aside. */
  lemma UnchangedPlan(c: Ctx, c': Ctx)
    requires Plannable(c) && !Changes(c) && c' == c.(newIds := c'.newIds)
    ensures Plannable(c') && !Changes(c')
  {
    forall r ensures (c'.Survives(r) <==> c.Survives(r)) && c'.OwnershipOk(r) <==> c.OwnershipOk(r) {
    }
    forall r ensures c'.RefsKnown(r) <==> c.RefsKnown(r) {
    }
    forall r | c'.Covered(r) ensures c'.ActionOf(r) == Unchanged {
      assert c.Covered(r) && c.ActionOf(r) == Unchanged;
    }
    forall r ensures !c'.Deletes(r) {
      assert c'.Deletes(r) ==> c'.Covered(r);
    }
  }

  // ---------- Ownership frame ----------

  /** Rows of other owners, and of local management, come through an apply untouched. */
  lemma ForeignRowKept(c: Ctx, db: Db, generation: nat, revision: nat, k: Key)
    requires LoadedFrom(c, db) && c.AllOwnershipOk()
    requires k in db.rows && !OwnedBy(db, c.source, k)
    ensures var db' := Applied(c, db, generation, revision);
      k in db'.rows && db'.rows[k] == db.rows[k] && k in db'.owners && db'.owners[k] == db.owners[k]
  {
    hide Applied, Valid;
    LoadedRow(c, db, k);
    var r := RefOf(k, db.rows[k]);
    if c.Writes(r) || c.Deletes(r) || c.Orphans(r) { TouchedOwned(c, db, r); }
    AppliedAt(c, db, generation, revision, r);
  }

  /** Nothing appears that the source does not own. */
  lemma NothingForeignAppears(c: Ctx, db: Db, generation: nat, revision: nat, k: Key)
    requires LoadedFrom(c, db) && c.AllOwnershipOk()
    requires k in Applied(c, db, generation, revision).rows
    ensures var db' := Applied(c, db, generation, revision);
      k in db'.owners && (!OwnedBy(db', c.source, k) ==> k in db.rows && !OwnedBy(db, c.source, k))
  {
    hide Applied, Valid;
    AppliedRowName(c, db, generation, revision, k);
    var r := RefOf(k, Applied(c, db, generation, revision).rows[k]);
    AppliedAt(c, db, generation, revision, r);
  }

  /** The allowlist of a foreign access key loses exactly the deleted assets. */
  lemma ForeignGrants(c: Ctx, db: Db, generation: nat, revision: nat, g: Grant)
    requires LoadedFrom(c, db) && c.AllOwnershipOk()
    requires Key(AccessKeys, g.key) in db.rows && !OwnedBy(db, c.source, Key(AccessKeys, g.key))
    ensures var db' := Applied(c, db, generation, revision);
      g in db'.allow <==> g in db.allow && Key(Assets, g.asset) in db'.rows
  {
    hide Applied, Upserts, Gone;
    var k, a := Key(AccessKeys, g.key), Key(Assets, g.asset);
    LoadedRow(c, db, k);
    var r := RefOf(k, db.rows[k]);
    if c.Writes(r) || c.Deletes(r) { TouchedOwned(c, db, r); }
    GoneAt(c, r);
    AppliedGrant(c, db, generation, revision, g);
    AppliedRow(c, db, generation, revision, a);
    assert g in db.allow ==> a in db.rows;
    if g in db.allow {
      AppliedRow(c, db, generation, revision, a);
    }
  }

  /** An apply by one source is invisible to every other owner, except that a deleted asset leaves
      the allowlists it was on. */
  lemma OwnershipFrame(db: Db, q: Request, newIds: map<Ref, Id>, db': Db)
    requires AppliesTo(db, q, newIds, db')
    ensures forall k :: k in db.rows && !OwnedBy(db, q.source, k) ==>
      k in db'.rows && db'.rows[k] == db.rows[k] && k in db'.owners && db'.owners[k] == db.owners[k]
    ensures forall k :: k in db'.rows && !OwnedBy(db', q.source, k) ==> k in db.rows && !OwnedBy(db, q.source, k)
    ensures forall g: Grant :: Key(AccessKeys, g.key) in db.rows && !OwnedBy(db, q.source, Key(AccessKeys, g.key)) ==>
      (g in db'.allow <==> g in db.allow && Key(Assets, g.asset) in db'.rows)
    ensures forall s :: s != q.source && s in db.sources ==> s in db'.sources && db'.sources[s] == db.sources[s]
  {
    hide Applied, LoadedFrom, KeyClash, Valid, UniqueNames, Changes, Resolved, Unused, Load, Plannable;
    var c := ContextOf(db, q, newIds);
    LoadedParts(c, db);
    GrantedAssetsExist(db);
    if Changes(c) {
      PlannableParts(c);
      var generation, revision := GenerationOf(db, q.source) + 1, db.revision + 1;
      SourcesAfter(c, db, generation, revision);
      forall k | k in db.rows && !OwnedBy(db, q.source, k)
        ensures k in db'.rows && db'.rows[k] == db.rows[k] && k in db'.owners && db'.owners[k] == db.owners[k]
      {
        ForeignRowKept(c, db, generation, revision, k);
      }
      forall k | k in db'.rows && !OwnedBy(db', q.source, k) ensures k in db.rows && !OwnedBy(db, q.source, k) {
        NothingForeignAppears(c, db, generation, revision, k);
      }
      forall g: Grant | Key(AccessKeys, g.key) in db.rows && !OwnedBy(db, q.source, Key(AccessKeys, g.key))
        ensures g in db'.allow <==> g in db.allow && Key(Assets, g.asset) in db'.rows
      {
        ForeignGrants(c, db, generation, revision, g);
      }
    }
  }

  lemma GrantedAssetsExist(db: Db)
    requires Valid(db)
    ensures forall g :: g in db.allow ==> Key(Assets, g.asset) in db.rows
    ensures db.owners.Keys == db.rows.Keys
  {
  }

  lemma SourcesAfter(c: Ctx, db: Db, generation: nat, revision: nat)
    requires c.IdsDistinct()
    ensures var db' := Applied(c, db, generation, revision);
      db'.revision == revision && db'.sources == db.sources[c.source := Source(generation, Some(revision), None)]
  {
  }
}
