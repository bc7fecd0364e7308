/** When exactly an apply leaves a declared resource as declared, and how a skipped write can leave
    it otherwise. */
module Drift {
  import opened Wrappers
  import opened Names
  import opened Schema
  import opened Decisions
  import opened LocalEdits
  import opened AtomicApply
  import opened Applications
  import opened AppliedConstraints
  import opened Planner
  import opened Histories
  import opened Convergence

  // ---------- What a successful apply leaves, whether or not it changed anything ----------

  lemma OutcomeNames(db: Db, q: Request, newIds: map<Ref, Id>, db': Db)
    requires AppliesTo(db, q, newIds, db')
    ensures UniqueNames(db') && ContextOf(db, q, newIds).AllRefsKnown()
    ensures var c := ContextOf(db, q, newIds);
      forall r :: (r in Load(db') <==> c.Survives(r)) && (c.Survives(r) ==> Load(db')[r].id == c.FinalId(r))
  {
    OutcomeValid(db, q, newIds, db');
    hide Applied, LoadedFrom, KeyClash, Valid, UniqueNames, Changes, Resolved, Unused, Plannable;
    var c := ContextOf(db, q, newIds);
    PlannableParts(c);
    if Changes(c) {
      AppliedNames(c, db, GenerationOf(db, q.source) + 1, db.revision + 1);
    } else {
      NoChanges(c);
      forall r ensures c.Survives(r) <==> r in c.existing { NothingMoves(c, r); }
    }
  }

  lemma NothingMoves(c: Ctx, r: Ref)
    requires forall r :: c.Covered(r) ==> c.ActionOf(r) == Unchanged
    ensures !c.Deletes(r) && !c.Writes(r) && (c.Declared(r) ==> r in c.existing)
  {
    if c.Covered(r) { assert c.ActionOf(r) == Unchanged; }
  }

  lemma OutcomeRow(db: Db, q: Request, newIds: map<Ref, Id>, db': Db, r: Ref)
    requires AppliesTo(db, q, newIds, db') && r in q.decls && q.decls[r].Present?
    ensures var c := ContextOf(db, q, newIds); var k := KeyOf(c, r);
      && k in db'.rows
      && (if c.Writes(r) then db'.rows[k] == Merged(db.rows, c.UpsertOf(r)) else k in db.rows && db'.rows[k] == db.rows[k])
  {
    hide Applied, KeyClash, Valid, UniqueNames, Changes, Resolved, Unused, Plannable, Load;
    var c := ContextOf(db, q, newIds);
    if Changes(c) {
      AppliedAt(c, db, GenerationOf(db, q.source) + 1, db.revision + 1, r);
    } else {
      NoChanges(c);
      NothingMoves(c, r);
      LoadedRef(c, db, r);
    }
  }

  lemma OutcomeGrant(db: Db, q: Request, newIds: map<Ref, Id>, db': Db, r: Ref, a: Id)
    requires AppliesTo(db, q, newIds, db') && r in q.decls && q.decls[r].Present? && r.kind == AccessKeys
    ensures var c := ContextOf(db, q, newIds); var g := Grant(c.FinalId(r), a);
      g in db'.allow <==> if c.Writes(r) then a in c.GrantedIds(c.decls[r].spec) else g in db.allow && Key(Assets, a) !in Gone(c)
  {
    hide Applied, KeyClash, Valid, UniqueNames, Changes, Resolved, Unused, Plannable, Load, Upserts, Gone;
    var c := ContextOf(db, q, newIds);
    PlannableParts(c);
    if Changes(c) {
      AppliedGrant(c, db, GenerationOf(db, q.source) + 1, db.revision + 1, Grant(c.FinalId(r), a));
      LoadedParts(c, db);
      DeclaredCovers(c, r);
      GoneAt(c, r);
      if c.Writes(r) {
        UpsertFor(c, r);
        if a in c.GrantedIds(c.decls[r].spec) { GrantedSurvives(c, db, r, a); }
      }
    } else {
      NoChanges(c);
      NothingMoves(c, r);
      NothingGone(c);
    }
  }

  lemma DeclaredCovers(c: Ctx, r: Ref)
    requires c.IdsDistinct() && c.Declared(r)
    ensures r in c.newIds && !c.Deletes(r)
  {
  }

  lemma NothingGone(c: Ctx)
    requires forall r :: c.Covered(r) ==> c.ActionOf(r) == Unchanged
    ensures Gone(c) == {}
  {
    forall r ensures !c.Deletes(r) { NothingMoves(c, r); }
  }

  lemma GrantedSurvives(c: Ctx, db: Db, r: Ref, a: Id)
    requires LoadedFrom(c, db) && c.Declared(r) && c.RefsKnown(r) && a in c.GrantedIds(c.decls[r].spec)
    ensures Key(Assets, a) !in Gone(c)
  {
    var n :| n in c.decls[r].spec.assets.value && c.FinalId(Ref(Assets, n)) == a;
    SurvivorStays(c, db, 0, 0, Ref(Assets, n));
  }

  // ---------- The exact condition, in terms of the state before the apply ----------

  /** The stored row of a resource already equals what its declaration stands for, its reference
      resolved to the id the name will have. */
  ghost predicate RowStands(c: Ctx, db: Db, r: Ref)
    requires c.Declared(r)
  {
    var k := KeyOf(c, r);
    k in db.rows && db.rows[k] == Ctx.RowOf(r, k.id, c.decls[r].spec, c.CredentialId(c.decls[r].spec))
  }

  /** The grants an access key has, less those to assets about to go, are those of its declaration. */
  ghost predicate GrantsStand(c: Ctx, db: Db, r: Ref)
    requires c.Declared(r)
  {
    forall a :: Grant(c.FinalId(r), a) in db.allow && Key(Assets, a) !in Gone(c) <==> a in c.GrantedIds(c.decls[r].spec)
  }

  /** The resource is new, or its row carries no tags; only local edits ever set tags. */
  predicate Untagged(rows: map<Key, Row>, k: Key) {
    k in rows && rows[k].AssetRow? ==> rows[k].tags == None
  }

  /** A written resource stands but for tags it had; an unwritten one stands if it stood before. */
  ghost predicate Stands(c: Ctx, db: Db, r: Ref)
    requires c.Declared(r)
  {
    if c.Writes(r) then Untagged(db.rows, KeyOf(c, r))
    else RowStands(c, db, r) && (c.decls[r].spec.AccessSpec? ==> GrantsStand(c, db, r))
  }

  lemma RowExactly(c: Ctx, db: Db, db': Db, r: Ref)
    requires c.Declared(r) && SpecOk(r, c.decls[r].spec) && KeyOf(c, r) in db'.rows
    requires KeyOf(c, r) in db.rows ==> RowOk(KeyOf(c, r), db.rows[KeyOf(c, r)])
    requires var k := KeyOf(c, r);
      if c.Writes(r) then db'.rows[k] == Merged(db.rows, c.UpsertOf(r)) else k in db.rows && db'.rows[k] == db.rows[k]
    ensures var k := KeyOf(c, r);
      db'.rows[k] == Ctx.RowOf(r, k.id, c.decls[r].spec, c.CredentialId(c.decls[r].spec)) <==>
        if c.Writes(r) then Untagged(db.rows, k) else RowStands(c, db, r)
  {
    hide Ctx.CredentialId, Ctx.GrantedIds, Ctx.FinalId, Ctx.ActionOf;
  }

  /** The ids of the names an access key lists, as they are found once the apply is done. */
  lemma ListedIds(c: Ctx, db': Db, r: Ref, a: Id)
    requires UniqueNames(db') && c.Declared(r) && c.RefsKnown(r) && c.decls[r].spec.AccessSpec?
    requires forall q :: (q in Load(db') <==> c.Survives(q)) && (c.Survives(q) ==> Load(db')[q].id == c.FinalId(q))
    ensures var spec := c.decls[r].spec;
      a in c.GrantedIds(spec) <==>
        spec.assets.Some? && exists n :: n in spec.assets.value && Ref(Assets, n) in Load(db') && a == Load(db')[Ref(Assets, n)].id
  {
    hide UniqueNames, Load, Ctx.Survives, Ctx.FinalId;
    var spec := c.decls[r].spec;
    if a in c.GrantedIds(spec) {
      var n :| n in spec.assets.value && c.FinalId(Ref(Assets, n)) == a;
      assert Ref(Assets, n) in Load(db');
    }
  }

  lemma CurrentIsFinal(c: Ctx, db': Db, r: Ref)
    requires UniqueNames(db') && c.Declared(r) && c.RefsKnown(r)
    requires forall q :: (q in Load(db') <==> c.Survives(q)) && (c.Survives(q) ==> Load(db')[q].id == c.FinalId(q))
    ensures CurrentCredential(db', c.decls[r].spec) == c.CredentialId(c.decls[r].spec)
    ensures r in Load(db') && Load(db')[r].id == c.FinalId(r)
  {
    hide UniqueNames, Load, Ctx.FinalId;
  }

  lemma GrantsExactly(c: Ctx, db: Db, db': Db, r: Ref)
    requires UniqueNames(db') && c.Declared(r) && c.RefsKnown(r) && c.decls[r].spec.AccessSpec?
    requires forall q :: (q in Load(db') <==> c.Survives(q)) && (c.Survives(q) ==> Load(db')[q].id == c.FinalId(q))
    requires forall a :: Grant(c.FinalId(r), a) in db'.allow <==>
      if c.Writes(r) then a in c.GrantedIds(c.decls[r].spec) else Grant(c.FinalId(r), a) in db.allow && Key(Assets, a) !in Gone(c)
    ensures var spec := c.decls[r].spec;
      (forall a :: Grant(c.FinalId(r), a) in db'.allow <==>
        spec.assets.Some? && exists n :: n in spec.assets.value && Ref(Assets, n) in Load(db') && a == Load(db')[Ref(Assets, n)].id)
      <==> c.Writes(r) || GrantsStand(c, db, r)
  {
    hide UniqueNames, Load, Gone, Ctx.Survives, Ctx.FinalId, Ctx.GrantedIds, Ctx.Writes, Ctx.RefsKnown;
    forall a ensures a in c.GrantedIds(c.decls[r].spec) <==>
        c.decls[r].spec.assets.Some?
        && exists n :: n in c.decls[r].spec.assets.value && Ref(Assets, n) in Load(db') && a == Load(db')[Ref(Assets, n)].id {
      ListedIds(c, db', r, a);
    }
  }

  /** For every successful apply on every valid catalog: a declared resource ends stored as declared
      if and only if it stands, which is decided by the catalog the apply meets. */
  lemma StoredExactly(db: Db, q: Request, newIds: map<Ref, Id>, db': Db, r: Ref)
    requires AppliesTo(db, q, newIds, db') && r in q.decls && q.decls[r].Present?
    ensures UniqueNames(db')
    ensures StoredAsDeclared(db', r, q.decls[r].spec) <==> Stands(ContextOf(db, q, newIds), db, r)
  {
    hide AppliesTo, Load, UniqueNames, Gone, Merged, RowStands, GrantsStand, Ctx.Writes, Ctx.RowOf, Ctx.GrantedIds,
         Ctx.CredentialId, Ctx.FinalId, Ctx.UpsertOf, CurrentCredential, Untagged, Ctx.Survives, Ctx.RefsKnown;
    AppliesParts(db, q, newIds, db');
    var c, spec := ContextOf(db, q, newIds), q.decls[r].spec;
    OutcomeNames(db, q, newIds, db');
    OutcomeRow(db, q, newIds, db', r);
    SpecFits(db, q, newIds, db', r);
    assert c.RefsKnown(r);
    RowExactly(c, db, db', r);
    CurrentIsFinal(c, db', r);
    if spec.AccessSpec? {
      forall a ensures Grant(c.FinalId(r), a) in db'.allow <==>
          if c.Writes(r) then a in c.GrantedIds(spec) else Grant(c.FinalId(r), a) in db.allow && Key(Assets, a) !in Gone(c) {
        OutcomeGrant(db, q, newIds, db', r, a);
      }
      GrantsExactly(c, db, db', r);
    }
  }

  lemma AppliesParts(db: Db, q: Request, newIds: map<Ref, Id>, db': Db)
    requires AppliesTo(db, q, newIds, db')
    ensures UniqueNames(db) && ContextOf(db, q, newIds).IdsDistinct()
  {
  }

  lemma SpecFits(db: Db, q: Request, newIds: map<Ref, Id>, db': Db, r: Ref)
    requires AppliesTo(db, q, newIds, db') && r in q.decls && q.decls[r].Present?
    ensures SpecOk(r, q.decls[r].spec)
    ensures var c := ContextOf(db, q, newIds); var k := KeyOf(c, r); k in db.rows ==> RowOk(k, db.rows[k])
  {
    hide Outcome;
  }

  // ---------- Reachable catalogs ----------

  /** Declared assets carry no tags. */
  ghost predicate DeclaredUntagged(db: Db) {
    forall k :: k in db.rows && k in db.owners && db.owners[k].Declarative? ==> Untagged(db.rows, k)
  }

  lemma EditUntagged(db: Db, e: Edit)
    requires Valid(db) && Admits(db, e) && DeclaredUntagged(db)
    ensures DeclaredUntagged(Effect(db, e))
  {
    hide GrantsValid, Unclashed, CredentialRowFor, MaterialOk, AssetOk, CredentialExists, GrantsTo, WithoutGrants;
  }

  lemma ApplyUntagged(db: Db, q: Request, newIds: map<Ref, Id>, db': Db)
    requires AppliesTo(db, q, newIds, db') && DeclaredUntagged(db)
    ensures DeclaredUntagged(db')
  {
    hide Applied, KeyClash, Valid, UniqueNames, Changes, Resolved, Unused, Plannable, Load;
    var c := ContextOf(db, q, newIds);
    PlannableParts(c);
    if Changes(c) {
      var generation, revision := GenerationOf(db, q.source) + 1, db.revision + 1;
      forall k | k in db'.rows && k in db'.owners && db'.owners[k].Declarative? ensures Untagged(db'.rows, k) {
        ApplyUntaggedAt(c, db, generation, revision, k);
      }
    }
  }

  lemma ApplyUntaggedAt(c: Ctx, db: Db, generation: nat, revision: nat, k: Key)
    requires LoadedFrom(c, db) && c.AllOwnershipOk() && DeclaredUntagged(db)
    requires k in Applied(c, db, generation, revision).rows && k in Applied(c, db, generation, revision).owners
    requires Applied(c, db, generation, revision).owners[k].Declarative?
    ensures Untagged(Applied(c, db, generation, revision).rows, k)
  {
    hide Applied, Valid, UniqueNames, Load;
    AppliedRowName(c, db, generation, revision, k);
    var r := RefOf(k, Applied(c, db, generation, revision).rows[k]);
    AppliedAt(c, db, generation, revision, r);
    if r in c.existing {
      LoadedRef(c, db, r);
      if c.Writes(r) { assert c.OwnershipOk(r); }
    } else {
      CreatedIsNew(c, db, r);
    }
  }

  lemma {:induction false} RunUntagged(states: seq<Db>, events: seq<Event>, i: nat)
    requires Run(states, events) && states[0] == EMPTY && i < |states|
    ensures DeclaredUntagged(states[i])
  {
    hide Valid, DeclaredUntagged, Outcome, AppliesTo;
    if i == 0 {
      NothingTagged();
    } else {
      RunUntagged(states, events, i - 1);
      assert Follows(states[i - 1], events[i - 1], states[i]);
      StepUntagged(states[i - 1], events[i - 1], states[i]);
    }
  }

  lemma NothingTagged()
    ensures DeclaredUntagged(EMPTY)
  {
  }

  lemma StepUntagged(db: Db, e: Event, db': Db)
    requires Follows(db, e, db') && DeclaredUntagged(db)
    ensures DeclaredUntagged(db')
  {
    hide Outcome, AppliesTo, DeclaredUntagged;
    match e
    case Editing(edit) =>
      if Admits(db, edit) { EditUntagged(db, edit); }
    case Failing(source, code) => FailureUntagged(db, source, code);
    case Applying(q, newIds) =>
      ApplyStep(db, q, newIds);
      if db' != db { ApplyUntagged(db, q, newIds, db'); }
  }

  lemma FailureUntagged(db: Db, source: SourceId, code: ErrorCode)
    requires DeclaredUntagged(db)
    ensures DeclaredUntagged(RecordFailure(db, source, code))
  {
  }

  /** In every reachable catalog, whatever anybody applied before: a declared resource ends stored as
      declared if and only if it is written, or its row and grants already stood. */
  lemma ConvergesExactly(states: seq<Db>, events: seq<Event>, i: nat, q: Request, newIds: map<Ref, Id>, db': Db, r: Ref)
    requires Run(states, events) && states[0] == EMPTY && i < |states|
    requires AppliesTo(states[i], q, newIds, db') && r in q.decls && q.decls[r].Present?
    ensures UniqueNames(db') && UniqueNames(states[i])
    ensures var c := ContextOf(states[i], q, newIds);
      StoredAsDeclared(db', r, q.decls[r].spec) <==>
        || c.Writes(r)
        || (RowStands(c, states[i], r) && (c.decls[r].spec.AccessSpec? ==> GrantsStand(c, states[i], r)))
  {
    hide Run, StoredAsDeclared, RowStands, GrantsStand, DeclaredUntagged;
    StoredExactly(states[i], q, newIds, db', r);
    RunUntagged(states, events, i);
    WrittenUntagged(states[i], q, newIds, db', r);
  }

  lemma WrittenUntagged(db: Db, q: Request, newIds: map<Ref, Id>, db': Db, r: Ref)
    requires AppliesTo(db, q, newIds, db') && DeclaredUntagged(db) && r in q.decls && q.decls[r].Present?
    ensures Untagged(db.rows, KeyOf(ContextOf(db, q, newIds), r))
  {
    hide Applied, KeyClash, Valid, UniqueNames, Changes, Resolved, Unused, Load;
    var c := ContextOf(db, q, newIds);
    if r in c.existing {
      LoadedRef(c, db, r);
      assert c.OwnershipOk(r);
    } else {
      CreatedIsNew(c, db, r);
    }
  }
}
