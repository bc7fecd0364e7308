/** What a successful apply does to each resource, told from the catalog it meets and the manifest. */
module Fates {
  import opened Wrappers
  import opened Names
  import opened Schema
  import opened Decisions
  import opened AtomicApply
  import opened Applications
  import opened AppliedConstraints
  import opened Planner
  import opened Drift

  /** A resource of someone else stays; one of the source's own is deleted, kept, rewritten or orphaned. */
  ghost predicate MeetsFate(db: Db, q: Request, db': Db, k: Key)
    requires k in db.rows
  {
    var r := RefOf(k, db.rows[k]);
    if !OwnedBy(db, q.source, k) then r !in q.decls && Kept(db, db', k)
    else if r in q.decls then
      match q.decls[r]
      case Absent => k !in db'.rows && k !in db'.owners
      case Present(spec) =>
        if db.owners[k].hash == HashOf(r, spec) && !db.owners[k].orphaned then Kept(db, db', k)
        else k in db'.rows && Claimed(db, q, db', k, r, spec)
    else if q.prune then k !in db'.rows && k !in db'.owners
    else
      && k in db'.rows && db'.rows[k] == db.rows[k]
      && k in db'.owners && db'.owners[k] == db.owners[k].(orphaned := true)
  }

  ghost predicate Kept(db: Db, db': Db, k: Key)
    requires k in db.rows
  {
    && k in db'.rows && db'.rows[k] == db.rows[k]
    && (k in db.owners <==> k in db'.owners) && (k in db.owners ==> db'.owners[k] == db.owners[k])
  }

  /** The ownership row says that the source's new generation wrote this spec. */
  ghost predicate Claimed(db: Db, q: Request, db': Db, k: Key, r: Ref, spec: Spec) {
    k in db'.owners && db'.owners[k] == Declarative(q.source, r, GenerationOf(db, q.source) + 1, HashOf(r, spec), false)
  }

  ghost predicate Taken(db: Db, r: Ref) {
    exists k :: k in db.rows && RefOf(k, db.rows[k]) == r
  }

  /** What is in the catalog afterwards was there before, or is a declared resource whose name was free. */
  ghost predicate MeetsOrigin(db: Db, q: Request, newIds: map<Ref, Id>, db': Db, k: Key)
    requires k in db'.rows
  {
    var r := RefOf(k, db'.rows[k]);
    k in db.rows ||
      (r in q.decls && q.decls[r].Present? && r in newIds && k.id == newIds[r] && !Taken(db, r)
       && Claimed(db, q, db', k, r, q.decls[r].spec))
  }

  lemma ExistingFate(c: Ctx, db: Db, generation: nat, revision: nat, k: Key)
    requires LoadedFrom(c, db) && c.AllOwnershipOk() && k in db.rows
    ensures var db' := Applied(c, db, generation, revision); var r := RefOf(k, db.rows[k]);
      && r in c.existing && KeyOf(c, r) == k && c.OwnershipOk(r)
      && (c.Deletes(r) ==> k !in db'.rows && k !in db'.owners)
      && (!c.Deletes(r) && c.Writes(r) ==> k in db'.rows && k in db'.owners && db'.owners[k] == OwnerOf(c, c.UpsertOf(r), generation))
      && (!c.Deletes(r) && !c.Writes(r) ==>
            && k in db'.rows && db'.rows[k] == db.rows[k] && k in db.owners && k in db'.owners
            && db'.owners[k] == if c.Orphans(r) then db.owners[k].(orphaned := true) else db.owners[k])
      && c.existing[r].owner == Some(db.owners[k])
  {
    hide Applied, Upserts, Gone, OrphanKeys, Valid, UniqueNames, Load;
    var r := RefOf(k, db.rows[k]);
    LoadedRow(c, db, k);
    LoadedRef(c, db, r);
    assert r in c.decls ==> c.OwnershipOk(r);
    GoneAt(c, r);
    AppliedRow(c, db, generation, revision, k);
    AppliedOwner(c, db, generation, revision, k);
    if !c.Deletes(r) { AppliedAt(c, db, generation, revision, r); }
  }

  /** The planner's decisions, in terms of the rows they are made from. */
  lemma DecidedFate(c: Ctx, db: Db, k: Key, q: Request, db': Db)
    requires k in db.rows && k in db.owners && q == Request(c.source, c.decls, c.prune)
    requires var r := RefOf(k, db.rows[k]);
      && r in c.existing && c.existing[r].owner == Some(db.owners[k]) && c.OwnershipOk(r)
      && (c.Deletes(r) ==> k !in db'.rows && k !in db'.owners)
      && (!c.Deletes(r) && c.Writes(r) ==>
            k in db'.rows && k in db'.owners && db'.owners[k] == OwnerOf(c, c.UpsertOf(r), GenerationOf(db, c.source) + 1))
      && (!c.Deletes(r) && !c.Writes(r) ==>
            && k in db'.rows && db'.rows[k] == db.rows[k] && k in db'.owners
            && db'.owners[k] == if c.Orphans(r) then db.owners[k].(orphaned := true) else db.owners[k])
    ensures MeetsFate(db, q, db', k)
  {
    hide Ctx.RowOf, Ctx.GrantedIds, Ctx.CredentialId, Ctx.FinalId, HashOf, GenerationOf;
  }

  /** Every resource of the catalog meets its fate. */
  lemma EveryFate(db: Db, q: Request, newIds: map<Ref, Id>, db': Db, k: Key)
    requires AppliesTo(db, q, newIds, db') && k in db.rows
    ensures MeetsFate(db, q, db', k)
  {
    hide AppliesTo, Valid, UniqueNames, Load, Applied, Changes, HashOf, MeetsFate, LoadedFrom, Ctx.Deletes, Ctx.Writes, Ctx.Orphans,
         Ctx.OwnershipOk, Ctx.AllOwnershipOk, OwnerOf, Ctx.UpsertOf;
    AppliesCases(db, q, newIds, db');
    OwnsAll(db, q, newIds, db');
    var c := ContextOf(db, q, newIds);
    ExistingFate(c, db, GenerationOf(db, q.source) + 1, db.revision + 1, k);
    if !Changes(c) {
      NoChanges(c);
      NothingOrphaned(c, RefOf(k, db.rows[k]));
    }
    DecidedFate(c, db, k, q, db');
  }

  lemma NothingOrphaned(c: Ctx, r: Ref)
    requires forall r :: c.Covered(r) ==> c.ActionOf(r) == Unchanged
    ensures !c.Deletes(r) && !c.Writes(r) && !c.Orphans(r)
  {
    if c.Covered(r) { assert c.ActionOf(r) == Unchanged; }
  }

  lemma OwnsAll(db: Db, q: Request, newIds: map<Ref, Id>, db': Db)
    requires AppliesTo(db, q, newIds, db')
    ensures ContextOf(db, q, newIds).AllOwnershipOk() && db.owners.Keys == db.rows.Keys
  {
    PlannableParts(ContextOf(db, q, newIds));
    hide Applied, Changes, KeyClash, UniqueNames, Load, Resolved, Unused, LoadedFrom, RowsValid, GrantsValid;
  }

  /** Every resource found afterwards has its origin. */
  lemma EveryOrigin(db: Db, q: Request, newIds: map<Ref, Id>, db': Db, k: Key)
    requires AppliesTo(db, q, newIds, db') && k in db'.rows
    ensures MeetsOrigin(db, q, newIds, db', k)
  {
    hide AppliesTo, Valid, UniqueNames, Load, Applied, Changes, HashOf, LoadedFrom, Taken;
    AppliesCases(db, q, newIds, db');
    var c := ContextOf(db, q, newIds);
    if Changes(c) && k !in db.rows {
      NewOrigin(c, db, GenerationOf(db, q.source) + 1, db.revision + 1, k);
    }
  }

  lemma NewOrigin(c: Ctx, db: Db, generation: nat, revision: nat, k: Key)
    requires LoadedFrom(c, db) && k in Applied(c, db, generation, revision).rows && k !in db.rows
    ensures var db' := Applied(c, db, generation, revision); var r := RefOf(k, db'.rows[k]);
      && c.Declared(r) && r in c.newIds && k.id == c.newIds[r] && !Taken(db, r)
      && k in db'.owners && db'.owners[k] == Declarative(c.source, r, generation, HashOf(r, c.decls[r].spec), false)
  {
    hide Applied, Upserts, Gone, OrphanKeys, Valid, UniqueNames, Load;
    AppliedRowName(c, db, generation, revision, k);
    var r := RefOf(k, Applied(c, db, generation, revision).rows[k]);
    AppliedAt(c, db, generation, revision, r);
    if r in c.existing { LoadedRef(c, db, r); }
    forall j | j in db.rows ensures RefOf(j, db.rows[j]) != r { LoadedRow(c, db, j); }
  }

  /** A declared resource whose name was free is there afterwards; the other way round is `MeetsOrigin`. */
  lemma EveryDeclaredArrives(db: Db, q: Request, newIds: map<Ref, Id>, db': Db, r: Ref)
    requires AppliesTo(db, q, newIds, db') && r in q.decls && q.decls[r].Present?
    ensures Taken(db', r) && (Taken(db, r) || (r in newIds && Key(r.kind, newIds[r]) in db'.rows))
  {
    AppliesCases(db, q, newIds, db');
    OutcomeRow(db, q, newIds, db', r);
    DeclaredNamed(db, q, newIds, db', r);
    var c := ContextOf(db, q, newIds);
    if r in c.existing { LoadedRef(c, db, r); } else { DeclaredCovers(c, r); }
  }

  lemma DeclaredNamed(db: Db, q: Request, newIds: map<Ref, Id>, db': Db, r: Ref)
    requires AppliesTo(db, q, newIds, db') && r in q.decls && q.decls[r].Present?
    ensures Taken(db', r)
  {
    OutcomeNames(db, q, newIds, db');
    var c := ContextOf(db, q, newIds);
    hide AppliesTo, UniqueNames;
    assert c.Survives(r);
    assert r in Load(db');
  }

  // ---------- When an apply can be planned at all ----------

  /** The resource is to be deleted. */
  ghost predicate Leaves(db: Db, q: Request, k: Key)
    requires k in db.rows
  {
    var r := RefOf(k, db.rows[k]);
    if r in q.decls then q.decls[r].Absent? else q.prune && OwnedBy(db, q.source, k)
  }

  /** The name will be taken. */
  ghost predicate TakenAfter(db: Db, q: Request, r: Ref) {
    if r in q.decls then q.decls[r].Present?
    else exists k :: k in db.rows && RefOf(k, db.rows[k]) == r && !Leaves(db, q, k)
  }

  ghost predicate ReferencesFine(db: Db, q: Request) {
    forall r :: r in q.decls && q.decls[r].Present? ==> ReferenceFine(db, q, q.decls[r].spec)
  }

  ghost predicate ReferenceFine(db: Db, q: Request, spec: Spec) {
    && (spec.AssetSpec? && spec.credential.Some? ==> TakenAfter(db, q, Ref(Credentials, spec.credential.value)))
    && (spec.AccessSpec? && spec.assets.Some? ==> forall n :: n in spec.assets.value ==> TakenAfter(db, q, Ref(Assets, n)))
  }

  ghost predicate OwnersFine(db: Db, q: Request) {
    forall k :: k in db.rows && RefOf(k, db.rows[k]) in q.decls ==> OwnedBy(db, q.source, k)
  }

  /** The asset is skipped, left alone or only orphaned: its row keeps its credential. */
  ghost predicate KeepsRow(db: Db, q: Request, k: Key)
    requires k in db.rows && k in db.owners
  {
    var r := RefOf(k, db.rows[k]);
    r in q.decls && q.decls[r].Present? ==>
      db.owners[k].Declarative? && db.owners[k].hash == HashOf(r, q.decls[r].spec) && !db.owners[k].orphaned
  }

  /** No credential is to be deleted while an asset that stays as it is refers to it. */
  ghost predicate CredentialsFine(db: Db, q: Request)
    requires db.owners.Keys == db.rows.Keys
  {
    forall k, d :: k in db.rows && d in db.rows && KeepsCredential(db, q, k, d) ==> !Leaves(db, q, d)
  }

  /** The asset stays as it is and refers to the credential. */
  ghost predicate KeepsCredential(db: Db, q: Request, k: Key, d: Key)
    requires k in db.rows && d in db.rows && db.owners.Keys == db.rows.Keys
  {
    && d.kind == Credentials && db.rows[k].AssetRow? && db.rows[k].credential == Some(d.id)
    && !Leaves(db, q, k) && KeepsRow(db, q, k)
  }

  lemma LeavesDeletes(c: Ctx, db: Db, k: Key, q: Request)
    requires LoadedFrom(c, db) && q == Request(c.source, c.decls, c.prune) && k in db.rows
    ensures var r := RefOf(k, db.rows[k]); r in c.existing && (c.Deletes(r) <==> Leaves(db, q, k)) && c.existing[r].id == k.id
    ensures var r := RefOf(k, db.rows[k]); c.OwnershipOk(r) <==> (r in q.decls ==> OwnedBy(db, q.source, k))
    ensures k in db.owners
  {
    hide UniqueNames, Load;
    LoadedRow(c, db, k);
    LoadedRef(c, db, RefOf(k, db.rows[k]));
  }

  lemma SurvivesTaken(c: Ctx, db: Db, q: Request, r: Ref)
    requires LoadedFrom(c, db) && q == Request(c.source, c.decls, c.prune)
    ensures c.Survives(r) <==> TakenAfter(db, q, r)
  {
    hide UniqueNames, Load, Valid, Leaves;
    if r in c.existing {
      LoadedRef(c, db, r);
      LeavesDeletes(c, db, KeyOf(c, r), q);
    }
    forall k | k in db.rows && RefOf(k, db.rows[k]) == r ensures r in c.existing && (c.Deletes(r) <==> Leaves(db, q, k)) {
      LeavesDeletes(c, db, k, q);
    }
  }

  lemma ReferencesExactly(c: Ctx, db: Db, q: Request)
    requires LoadedFrom(c, db) && q == Request(c.source, c.decls, c.prune)
    ensures c.AllRefsKnown() <==> ReferencesFine(db, q)
  {
    hide LoadedFrom, Ctx.Survives, TakenAfter;
    forall r ensures c.Survives(r) <==> TakenAfter(db, q, r) { SurvivesTaken(c, db, q, r); }
    forall r | r in c.decls ensures c.RefsKnown(r) <==> (q.decls[r].Present? ==> ReferenceFine(db, q, q.decls[r].spec)) { }
  }

  lemma OwnersExactly(c: Ctx, db: Db, q: Request)
    requires LoadedFrom(c, db) && q == Request(c.source, c.decls, c.prune)
    ensures c.AllOwnershipOk() <==> OwnersFine(db, q)
  {
    hide UniqueNames, Load, Valid, Ctx.OwnershipOk, OwnedBy;
    forall k | k in db.rows
      ensures c.OwnershipOk(RefOf(k, db.rows[k])) <==> (RefOf(k, db.rows[k]) in q.decls ==> OwnedBy(db, q.source, k))
    {
      LeavesDeletes(c, db, k, q);
    }
    forall r | r in c.decls ensures r in c.existing || c.OwnershipOk(r) { FreeNameOk(c, r); }
    forall r | r in c.existing ensures KeyOf(c, r) in db.rows && RefOf(KeyOf(c, r), db.rows[KeyOf(c, r)]) == r { LoadedRef(c, db, r); }
  }

  lemma FreeNameOk(c: Ctx, r: Ref)
    ensures r in c.existing || c.OwnershipOk(r)
  {
  }

  lemma KeepsRowUnwritten(c: Ctx, db: Db, q: Request, k: Key)
    requires LoadedFrom(c, db) && q == Request(c.source, c.decls, c.prune) && k in db.rows && k in db.owners
    requires c.AllOwnershipOk()
    ensures KeepsRow(db, q, k) <==> !c.Writes(RefOf(k, db.rows[k]))
  {
    hide UniqueNames, Load, Valid, HashOf;
    var r := RefOf(k, db.rows[k]);
    LoadedRow(c, db, k);
    LoadedRef(c, db, r);
    assert r in c.decls ==> c.OwnershipOk(r);
  }

  lemma WrittenUsesSurvivor(c: Ctx, db: Db, a: Ref, d: Ref)
    requires LoadedFrom(c, db) && c.AllRefsKnown() && c.Writes(a) && c.Deletes(d) && d.kind == Credentials
    ensures c.CredentialId(c.decls[a].spec) != Some(c.existing[d].id)
  {
    hide UniqueNames, Load, Valid;
    LoadedParts(c, db);
    var spec := c.decls[a].spec;
    assert c.RefsKnown(a);
    if spec.AssetSpec? && spec.credential.Some? {
      var n := Ref(Credentials, spec.credential.value);
      if c.FinalId(n) == c.existing[d].id { KeyOfInjective(c, n, d); }
    }
  }

  lemma AssetRowRef(c: Ctx, db: Db, k: Key)
    requires LoadedFrom(c, db) && k in db.rows
    ensures db.rows[k].AssetRow? <==> k.kind == Assets
    ensures var r := RefOf(k, db.rows[k]);
      && r in c.existing && KeyOf(c, r) == k
      && (db.rows[k].AssetRow? ==> c.existing[r].credential == db.rows[k].credential)
    ensures db.owners.Keys == db.rows.Keys
  {
    hide UniqueNames, Load;
    LoadedRow(c, db, k);
    assert RowOk(k, db.rows[k]);
  }

  lemma InUseExactly(c: Ctx, db: Db, q: Request)
    requires LoadedFrom(c, db) && q == Request(c.source, c.decls, c.prune)
    requires c.AllRefsKnown() && c.AllOwnershipOk() && db.owners.Keys == db.rows.Keys
    ensures c.InUse() <==> !CredentialsFine(db, q)
  {
    hide UniqueNames, Load, Valid, LoadedFrom, Leaves, KeepsRow, Ctx.Deletes, Ctx.Writes, Ctx.AllRefsKnown, Ctx.AllOwnershipOk;
    if c.InUse() {
      var a: Ref, d: Ref :| d.kind == Credentials && c.Deletes(d) && c.Uses(a, d);
      InUseFound(c, db, q, a, d);
    }
    if !CredentialsFine(db, q) {
      var k, d :| k in db.rows && d in db.rows && KeepsCredential(db, q, k, d) && Leaves(db, q, d);
      AssetRowRef(c, db, k);
      AssetRowRef(c, db, d);
      LeavesDeletes(c, db, k, q);
      LeavesDeletes(c, db, d, q);
      KeepsRowUnwritten(c, db, q, k);
      assert c.Uses(RefOf(k, db.rows[k]), RefOf(d, db.rows[d]));
    }
  }

  lemma InUseFound(c: Ctx, db: Db, q: Request, a: Ref, d: Ref)
    requires LoadedFrom(c, db) && q == Request(c.source, c.decls, c.prune)
    requires c.AllRefsKnown() && c.AllOwnershipOk() && db.owners.Keys == db.rows.Keys
    requires d.kind == Credentials && c.Deletes(d) && c.Uses(a, d)
    ensures !CredentialsFine(db, q)
  {
    hide UniqueNames, Load, Valid, Leaves, KeepsRow, Ctx.Writes, Ctx.AllRefsKnown, Ctx.AllOwnershipOk;
    if c.Writes(a) { WrittenUsesSurvivor(c, db, a, d); }
    DeletesExisting(c, d);
    LoadedRef(c, db, a);
    LoadedRef(c, db, d);
    var k, l := KeyOf(c, a), KeyOf(c, d);
    AssetRowRef(c, db, k);
    LeavesDeletes(c, db, k, q);
    LeavesDeletes(c, db, l, q);
    KeepsRowUnwritten(c, db, q, k);
    assert KeepsCredential(db, q, k, l);
  }

  lemma DeletesExisting(c: Ctx, d: Ref)
    requires c.Deletes(d)
    ensures d in c.existing
  {
  }

  /** An apply can be planned if and only if every reference is to a name that will be taken, every
      declared name that is taken is the source's own, and no asset that stays as it is refers to a
      credential that leaves; the first of these to fail names the error. */
  lemma PlansExactly(db: Db, q: Request, newIds: map<Ref, Id>)
    requires Valid(db) && Resolved(q) && Unused(db, q, newIds)
    ensures UniqueNames(db) && db.owners.Keys == db.rows.Keys
    ensures Plannable(ContextOf(db, q, newIds)) <==> ReferencesFine(db, q) && OwnersFine(db, q) && CredentialsFine(db, q)
    ensures !Plannable(ContextOf(db, q, newIds)) ==>
      PlanError(ContextOf(db, q, newIds)) == (
        if !ReferencesFine(db, q) then UnknownReference else if !OwnersFine(db, q) then OwnershipConflict else ResourceInUse)
  {
    ContextLoaded(db, q, newIds);
    hide UniqueNames, Load, RowsValid, GrantsValid, LoadedFrom, ReferencesFine, OwnersFine, CredentialsFine, Resolved, Unused,
         Ctx.AllRefsKnown, Ctx.AllOwnershipOk, Ctx.InUse;
    var c := ContextOf(db, q, newIds);
    ReferencesExactly(c, db, q);
    OwnersExactly(c, db, q);
    if c.AllRefsKnown() && c.AllOwnershipOk() { InUseExactly(c, db, q); }
  }
}
