/** What the summary of an apply promises about the state it leaves. */
module Summaries {
  import opened Names
  import opened Schema
  import opened Decisions
  import opened Applications
  import opened AppliedConstraints
  import opened Planner
  import opened AtomicApply

  datatype Summary = Summary(
    source: SourceId, baseRevision: nat, newRevision: nat, generation: nat, dryRun: bool,
    created: nat, updated: nat, deleted: nat, orphaned: nat, untouched: nat, changes: seq<Change>)

  /** How many of the first `n` changes record an action. */
  function CountTo(changes: seq<Change>, n: nat, action: Action): nat
    requires n <= |changes|
  {
    if n == 0 then 0 else CountTo(changes, n - 1, action) + if changes[n - 1].action == action then 1 else 0
  }

  function Count(changes: seq<Change>, action: Action): nat {
    CountTo(changes, |changes|, action)
  }

  /** A plan has changes when some recorded action is not Unchanged. */
  predicate Changed(p: Plan) {
    exists c | c in p.changes :: c.action != Unchanged
  }

  function Summarize(p: Plan, source: SourceId, baseRevision: nat, generation: nat, dryRun: bool): Summary {
    var step := if Changed(p) then 1 else 0;
    Summary(source, baseRevision, baseRevision + step, generation + step, dryRun,
            Count(p.changes, Created), Count(p.changes, Updated), Count(p.changes, Deleted),
            Count(p.changes, Orphaned), Count(p.changes, Unchanged), p.changes)
  }

  lemma {:induction false} CountsAddUp(changes: seq<Change>, n: nat)
    requires n <= |changes|
    ensures CountTo(changes, n, Created) + CountTo(changes, n, Updated) + CountTo(changes, n, Deleted)
          + CountTo(changes, n, Orphaned) + CountTo(changes, n, Unchanged) == n
  {
    if n > 0 { CountsAddUp(changes, n - 1); }
  }

  function RefsWith(changes: seq<Change>, action: Action): set<Ref> {
    set ch | ch in changes && ch.action == action :: ch.ref
  }

  function KeysWith(c: Ctx, changes: seq<Change>, action: Action): set<Key> {
    set r | r in RefsWith(changes, action) :: KeyOf(c, r)
  }

  function RefsTo(changes: seq<Change>, n: nat, action: Action): set<Ref>
    requires n <= |changes|
  {
    set i | 0 <= i < n && changes[i].action == action :: changes[i].ref
  }

  lemma RefsSnoc(changes: seq<Change>, n: nat, action: Action)
    requires Distinct(changes) && 0 < n <= |changes|
    ensures var last := changes[n - 1];
      && last.ref !in RefsTo(changes, n - 1, action)
      && RefsTo(changes, n, action) == RefsTo(changes, n - 1, action) + if last.action == action then {last.ref} else {}
  {
  }

  lemma NoRefs(changes: seq<Change>, action: Action)
    ensures RefsTo(changes, 0, action) == {}
  {
  }

  /** An action is counted once per resource. */
  lemma {:induction false} CountRefs(changes: seq<Change>, n: nat, action: Action)
    requires Distinct(changes) && n <= |changes|
    ensures CountTo(changes, n, action) == |RefsTo(changes, n, action)|
  {
    hide RefsTo, Distinct;
    if n > 0 {
      CountRefs(changes, n - 1, action);
      RefsSnoc(changes, n, action);
    } else {
      NoRefs(changes, action);
    }
  }

  lemma {:induction false} CountKeys(c: Ctx, refs: set<Ref>)
    requires forall r, q :: r in refs && q in refs && KeyOf(c, r) == KeyOf(c, q) ==> r == q
    ensures |set r | r in refs :: KeyOf(c, r)| == |refs|
  {
    hide KeyOf;
    if refs != {} {
      var r :| r in refs;
      CountKeys(c, refs - {r});
      assert (set q | q in refs :: KeyOf(c, q)) == (set q | q in refs - {r} :: KeyOf(c, q)) + {KeyOf(c, r)};
    } else {
      assert (set q | q in refs :: KeyOf(c, q)) == {};
    }
  }

  lemma CountIsCardinality(c: Ctx, changes: seq<Change>, action: Action)
    requires c.IdsDistinct() && Distinct(changes)
    requires forall ch :: ch in changes ==> ch.ref in c.existing || ch.ref in c.newIds
    ensures Count(changes, action) == |KeysWith(c, changes, action)|
  {
    hide KeyOf, Distinct;
    CountRefs(changes, |changes|, action);
    var refs := RefsWith(changes, action);
    assert refs == RefsTo(changes, |changes|, action);
    forall r, q | r in refs && q in refs && KeyOf(c, r) == KeyOf(c, q) ensures r == q {
      KeyOfInjective(c, r, q);
    }
    CountKeys(c, refs);
  }

  lemma ChangedMeansChanges(c: Ctx, p: Plan)
    requires PlanOf(c, p)
    ensures Changed(p) <==> Changes(c)
  {
    if Changes(c) {
      var r :| c.Covered(r) && c.ActionOf(r) != Unchanged;
      assert r in c.Universe() && Change(r, c.ActionOf(r)) in p.changes;
    }
  }

  /** The change list is strictly sorted, with one entry for each declared or source-owned resource,
      and the five counts add up to its length. */
  lemma SummaryComplete(c: Ctx, p: Plan, baseRevision: nat, generation: nat, dryRun: bool)
    requires PlanOf(c, p)
    ensures var s := Summarize(p, c.source, baseRevision, generation, dryRun);
      && StrictlySorted(ChangeRef, s.changes)
      && (forall r :: c.Covered(r) <==> exists ch :: ch in s.changes && ch.ref == r)
      && (forall ch :: ch in s.changes ==> c.Covered(ch.ref) && ch.action == c.ActionOf(ch.ref))
      && s.created + s.updated + s.deleted + s.orphaned + s.untouched == |s.changes|
  {
    CountsAddUp(p.changes, |p.changes|);
    forall r | c.Covered(r) ensures exists ch :: ch in p.changes && ch.ref == r {
      assert r in c.Universe() && Change(r, c.ActionOf(r)) in p.changes;
    }
  }

  lemma CreatedAppear(c: Ctx, db: Db, p: Plan, generation: nat, revision: nat)
    requires LoadedFrom(c, db) && PlanOf(c, p)
    ensures KeysWith(c, p.changes, Created) == Applied(c, db, generation, revision).rows.Keys - db.rows.Keys
  {
    hide Applied, Upserts, Gone, Valid, UniqueNames, PlanOf, RefsWith;
    PlannedAction(c, p);
    var rows := Applied(c, db, generation, revision).rows;
    forall r | r in RefsWith(p.changes, Created) ensures KeyOf(c, r) in rows.Keys - db.rows.Keys {
      SurvivorStays(c, db, generation, revision, r);
      CreatedIsNew(c, db, r);
    }
    forall k | k in rows && k !in db.rows ensures k in KeysWith(c, p.changes, Created) {
      AppliedRow(c, db, generation, revision, k);
      UpsertAt(c, k);
      var r := Upserts(c)[k].ref;
      if r in c.existing { LoadedRef(c, db, r); }
      assert r in RefsWith(p.changes, Created);
    }
  }

  lemma DeletedVanish(c: Ctx, db: Db, p: Plan, generation: nat, revision: nat)
    requires LoadedFrom(c, db) && PlanOf(c, p)
    ensures KeysWith(c, p.changes, Deleted) == db.rows.Keys - Applied(c, db, generation, revision).rows.Keys
  {
    hide Applied, Upserts, Gone, Valid, UniqueNames, PlanOf, RefsWith;
    PlannedAction(c, p);
    var rows := Applied(c, db, generation, revision).rows;
    forall r | r in RefsWith(p.changes, Deleted) ensures KeyOf(c, r) in db.rows.Keys - rows.Keys {
      LoadedRef(c, db, r);
      GoneAt(c, r);
      AppliedRow(c, db, generation, revision, KeyOf(c, r));
    }
    forall k | k in db.rows && k !in rows ensures k in KeysWith(c, p.changes, Deleted) {
      AppliedRow(c, db, generation, revision, k);
      LoadedRow(c, db, k);
      var r := RefOf(k, db.rows[k]);
      GoneAt(c, r);
      assert r in RefsWith(p.changes, Deleted);
    }
  }

  lemma RecordedAction(c: Ctx, p: Plan, r: Ref, action: Action)
    requires PlanOf(c, p)
    ensures r in RefsWith(p.changes, action) <==> c.Covered(r) && c.ActionOf(r) == action
  {
    if c.Covered(r) {
      assert r in c.Universe() && Change(r, c.ActionOf(r)) in p.changes;
    }
  }

  lemma PlannedAction(c: Ctx, p: Plan)
    requires PlanOf(c, p)
    ensures forall r :: r in RefsWith(p.changes, Created) <==> r in c.decls && r !in c.existing && c.Declared(r)
    ensures forall r :: r in RefsWith(p.changes, Deleted) <==> c.Deletes(r)
  {
    hide PlanOf;
    forall r: Ref ensures r in RefsWith(p.changes, Created) <==> r in c.decls && r !in c.existing && c.Declared(r)
                  ensures r in RefsWith(p.changes, Deleted) <==> c.Deletes(r) {
      RecordedAction(c, p, r, Created);
      RecordedAction(c, p, r, Deleted);
    }
  }

  /** On commit, exactly `created` resources appear and exactly `deleted` vanish. */
  lemma SummaryFaithful(db: Db, q: Request, newIds: map<Ref, Id>, db': Db, p: Plan, dryRun: bool)
    requires AppliesTo(db, q, newIds, db') && PlanOf(ContextOf(db, q, newIds), p)
    ensures var s := Summarize(p, q.source, db.revision, GenerationOf(db, q.source), dryRun);
      && s.created == |db'.rows.Keys - db.rows.Keys|
      && s.deleted == |db.rows.Keys - db'.rows.Keys|
      && s.newRevision == db'.revision
      && s.generation == GenerationOf(db', q.source)
  {
    hide Applied, AppliesTo, LoadedFrom, UniqueNames, PlanOf, Changes, Changed, Count, ContextOf, Ctx.IdsDistinct;
    AppliesCases(db, q, newIds, db');
    var c := ContextOf(db, q, newIds);
    ChangedMeansChanges(c, p);
    if Changes(c) {
      CountsApplied(c, db, p, GenerationOf(db, q.source) + 1, db.revision + 1);
      SourcesAfter(c, db, GenerationOf(db, q.source) + 1, db.revision + 1);
    } else {
      NothingCounted(c, p);
      assert db.rows.Keys - db.rows.Keys == {};
    }
  }

  lemma CountsApplied(c: Ctx, db: Db, p: Plan, generation: nat, revision: nat)
    requires LoadedFrom(c, db) && PlanOf(c, p)
    ensures Count(p.changes, Created) == |Applied(c, db, generation, revision).rows.Keys - db.rows.Keys|
    ensures Count(p.changes, Deleted) == |db.rows.Keys - Applied(c, db, generation, revision).rows.Keys|
  {
    hide Applied, LoadedFrom, PlanOf, Count, KeysWith;
    LoadedParts(c, db);
    PlanParts(c, p);
    CountIsCardinality(c, p.changes, Created);
    CountIsCardinality(c, p.changes, Deleted);
    CreatedAppear(c, db, p, generation, revision);
    DeletedVanish(c, db, p, generation, revision);
  }

  /** A plan without changes creates and deletes nothing. */
  lemma NothingCounted(c: Ctx, p: Plan)
    requires PlanOf(c, p) && c.IdsDistinct() && !Changes(c)
    ensures Count(p.changes, Created) == 0 && Count(p.changes, Deleted) == 0
  {
    hide PlanOf, KeyOf, Ctx.IdsDistinct, Changes, Count, Distinct;
    PlanParts(c, p);
    NoChanges(c);
    CountIsCardinality(c, p.changes, Created);
    CountIsCardinality(c, p.changes, Deleted);
    assert RefsWith(p.changes, Created) == {} && RefsWith(p.changes, Deleted) == {};
  }

  lemma PlanParts(c: Ctx, p: Plan)
    requires PlanOf(c, p) && c.IdsDistinct()
    ensures Distinct(p.changes)
    ensures forall ch :: ch in p.changes ==> ch.ref in c.existing || ch.ref in c.newIds
    ensures forall ch :: ch in p.changes ==> c.Covered(ch.ref) && ch.action == c.ActionOf(ch.ref)
  {
  }

  /** A diff predicts an apply on the same catalog in everything but the dry-run flag, though the
      two set aside different ids. */
  lemma DiffPredictsApply(c: Ctx, p: Plan, c': Ctx, p': Plan, baseRevision: nat, generation: nat)
    requires PlanOf(c, p) && PlanOf(c', p') && c' == c.(newIds := c'.newIds)
    ensures Summarize(p', c.source, baseRevision, generation, true)
         == Summarize(p, c.source, baseRevision, generation, false).(dryRun := true)
  {
    hide PlanOf, Count;
    RecordedChanges(c, p);
    RecordedChanges(c', p');
    forall r ensures c'.Covered(r) <==> c.Covered(r)
      ensures c.Covered(r) ==> c'.ActionOf(r) == c.ActionOf(r)
    {
    }
    SortedUnique(ChangeRef, p.changes, p'.changes);
  }

  lemma RecordedChanges(c: Ctx, p: Plan)
    requires PlanOf(c, p)
    ensures StrictlySorted(ChangeRef, p.changes)
    ensures forall ch: Change :: ch in p.changes <==> c.Covered(ch.ref) && ch.action == c.ActionOf(ch.ref)
  {
    forall ch: Change | c.Covered(ch.ref) && ch.action == c.ActionOf(ch.ref) ensures ch in p.changes {
      assert ch.ref in c.Universe();
    }
  }
}
