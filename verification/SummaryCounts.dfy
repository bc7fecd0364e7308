/** What each number of a summary counts, told from the catalog the apply meets and the one it leaves. */
module SummaryCounts {
  import opened Wrappers
  import opened Names
  import opened Schema
  import opened Decisions
  import opened AtomicApply
  import opened Applications
  import opened AppliedConstraints
  import opened Planner
  import opened Summaries
  import opened Fates

  /** The declared names, and those of the resources the source owns. */
  ghost function CoveredRefs(db: Db, q: Request): set<Ref> {
    q.decls.Keys + set k | k in db.rows && OwnedBy(db, q.source, k) :: RefOf(k, db.rows[k])
  }

  /** The resource of that name carries the spec's digest and is not orphaned. */
  ghost predicate Current(db: Db, r: Ref, spec: Spec) {
    exists k :: k in db.rows && RefOf(k, db.rows[k]) == r && k in db.owners && db.owners[k].Declarative?
      && db.owners[k].hash == HashOf(r, spec) && !db.owners[k].orphaned
  }

  ghost predicate OrphanedAlready(db: Db, r: Ref) {
    exists k :: k in db.rows && RefOf(k, db.rows[k]) == r && k in db.owners && db.owners[k].Declarative? && db.owners[k].orphaned
  }

  ghost function ToCreate(db: Db, q: Request): set<Ref> {
    set r | r in q.decls && q.decls[r].Present? && !Taken(db, r)
  }

  ghost function ToUpdate(db: Db, q: Request): set<Ref> {
    set r | r in q.decls && q.decls[r].Present? && Taken(db, r) && !Current(db, r, q.decls[r].spec)
  }

  ghost function ToDelete(db: Db, q: Request): set<Ref> {
    set r | r in CoveredRefs(db, q) && Taken(db, r) && if r in q.decls then q.decls[r].Absent? else q.prune
  }

  ghost function ToOrphan(db: Db, q: Request): set<Ref> {
    set r | r in CoveredRefs(db, q) && r !in q.decls && !q.prune && !OrphanedAlready(db, r)
  }

  ghost function ToLeave(db: Db, q: Request): set<Ref> {
    CoveredRefs(db, q) - ToCreate(db, q) - ToUpdate(db, q) - ToDelete(db, q) - ToOrphan(db, q)
  }

  ghost function RefsFor(db: Db, q: Request, action: Action): set<Ref> {
    match action
    case Created => ToCreate(db, q)
    case Updated => ToUpdate(db, q)
    case Deleted => ToDelete(db, q)
    case Orphaned => ToOrphan(db, q)
    case Unchanged => ToLeave(db, q)
  }

  /** What is loaded under a name is what the catalog holds under it. */
  lemma LoadedState(c: Ctx, db: Db, r: Ref)
    requires LoadedFrom(c, db)
    ensures r in c.existing <==> Taken(db, r)
    ensures r in c.existing ==>
      && KeyOf(c, r) in db.rows && KeyOf(c, r) in db.owners && c.existing[r].owner == Some(db.owners[KeyOf(c, r)])
      && (forall k :: k in db.rows && RefOf(k, db.rows[k]) == r ==> k == KeyOf(c, r))
      && RefOf(KeyOf(c, r), db.rows[KeyOf(c, r)]) == r
  {
    hide UniqueNames, Load;
    if r in c.existing {
      LoadedRef(c, db, r);
      OwnersAreRows(c, db);
    }
    forall k | k in db.rows && RefOf(k, db.rows[k]) == r ensures r in c.existing && k == KeyOf(c, r) { LoadedRow(c, db, k); }
  }

  lemma OwnersAreRows(c: Ctx, db: Db)
    requires LoadedFrom(c, db)
    ensures db.owners.Keys == db.rows.Keys
  {
    hide RowsValid, GrantsValid, UniqueNames, Load;
  }

  lemma CoveredState(c: Ctx, db: Db, q: Request, r: Ref)
    requires LoadedFrom(c, db) && q == Request(c.source, c.decls, c.prune)
    ensures c.Covered(r) <==> r in CoveredRefs(db, q)
  {
    hide LoadedFrom, Taken;
    LoadedState(c, db, r);
    if c.Owned(r) { assert OwnedBy(db, q.source, KeyOf(c, r)); }
    if r in CoveredRefs(db, q) && r !in c.decls {
      var k :| k in db.rows && OwnedBy(db, q.source, k) && RefOf(k, db.rows[k]) == r;
      LoadedRow(c, db, k);
      assert r in c.existing && k == KeyOf(c, r) && c.existing[r].owner == Some(db.owners[k]);
    }
  }

  lemma OwnerState(c: Ctx, db: Db, r: Ref)
    requires LoadedFrom(c, db) && r in c.existing
    ensures c.existing[r].owner.Some?
    ensures var o := c.existing[r].owner.value;
      && (forall spec :: Current(db, r, spec) <==> o.Declarative? && o.hash == HashOf(r, spec) && !o.orphaned)
      && (OrphanedAlready(db, r) <==> o.Declarative? && o.orphaned)
  {
    LoadedState(c, db, r);
    hide LoadedFrom, HashOf, Taken;
  }

  /** The recorded action of every resource, told from the catalog. */
  lemma ActionState(c: Ctx, db: Db, q: Request, r: Ref, action: Action)
    requires LoadedFrom(c, db) && q == Request(c.source, c.decls, c.prune) && c.AllOwnershipOk()
    ensures c.Covered(r) && c.ActionOf(r) == action <==> r in RefsFor(db, q, action)
  {
    hide LoadedFrom, CoveredRefs, HashOf, Taken, Current, OrphanedAlready;
    LoadedState(c, db, r);
    CoveredState(c, db, q, r);
    assert r in c.decls ==> c.OwnershipOk(r);
    if r in c.existing { OwnerState(c, db, r); }
    CoversDecls(db, q, r);
  }

  lemma CoversDecls(db: Db, q: Request, r: Ref)
    ensures r in q.decls ==> r in CoveredRefs(db, q)
  {
  }

  /** Every entry of the change list is what the catalog and the manifest say. */
  lemma EntriesExactly(db: Db, q: Request, newIds: map<Ref, Id>, p: Plan)
    requires Valid(db) && Resolved(q) && Unused(db, q, newIds) && UniqueNames(db)
    requires Plannable(ContextOf(db, q, newIds)) && PlanOf(ContextOf(db, q, newIds), p)
    ensures forall r, action :: Change(r, action) in p.changes <==> r in RefsFor(db, q, action)
    ensures Distinct(p.changes)
  {
    hide Valid, Resolved, Unused, UniqueNames, Plannable, PlanOf, LoadedFrom, Load, RefsFor, Ctx.Covered, Ctx.ActionOf;
    var c := ContextOf(db, q, newIds);
    ContextLoaded(db, q, newIds);
    PlannableParts(c);
    ChangesDistinct(c, p);
    forall r, action ensures Change(r, action) in p.changes <==> r in RefsFor(db, q, action) {
      RecordedEntry(c, p, r, action);
      ActionState(c, db, q, r, action);
    }
  }

  /** Every entry of the change list, and every number, is what the catalog and the manifest say. */
  lemma CountsExactly(db: Db, q: Request, newIds: map<Ref, Id>, p: Plan, baseRevision: nat, generation: nat, dryRun: bool)
    requires Valid(db) && Resolved(q) && Unused(db, q, newIds) && UniqueNames(db)
    requires Plannable(ContextOf(db, q, newIds)) && PlanOf(ContextOf(db, q, newIds), p)
    ensures var s := Summarize(p, q.source, baseRevision, generation, dryRun);
      && (forall r, action :: Change(r, action) in s.changes <==> r in RefsFor(db, q, action))
      && s.created == |ToCreate(db, q)| && s.updated == |ToUpdate(db, q)| && s.deleted == |ToDelete(db, q)|
      && s.orphaned == |ToOrphan(db, q)| && s.untouched == |ToLeave(db, q)|
      && s.source == q.source && s.dryRun == dryRun && s.baseRevision == baseRevision
      && s.newRevision == baseRevision + (if ToLeave(db, q) == CoveredRefs(db, q) then 0 else 1)
      && s.generation == generation + (if ToLeave(db, q) == CoveredRefs(db, q) then 0 else 1)
  {
    hide Valid, Resolved, Unused, UniqueNames, Plannable, PlanOf, ToCreate, ToUpdate, ToDelete, ToOrphan, ToLeave, Distinct, Count,
         Changed, CoveredRefs, ContextOf;
    EntriesExactly(db, q, newIds, p);
    CountedRefs(p.changes, Created, ToCreate(db, q));
    CountedRefs(p.changes, Updated, ToUpdate(db, q));
    CountedRefs(p.changes, Deleted, ToDelete(db, q));
    CountedRefs(p.changes, Orphaned, ToOrphan(db, q));
    CountedRefs(p.changes, Unchanged, ToLeave(db, q));
    ChangedState(db, q, p);
  }

  lemma RecordedEntry(c: Ctx, p: Plan, r: Ref, action: Action)
    requires PlanOf(c, p)
    ensures Change(r, action) in p.changes <==> c.Covered(r) && c.ActionOf(r) == action
  {
    RecordedChanges(c, p);
    hide PlanOf;
  }

  lemma ChangesDistinct(c: Ctx, p: Plan)
    requires PlanOf(c, p)
    ensures Distinct(p.changes)
  {
  }

  lemma CountedRefs(changes: seq<Change>, action: Action, refs: set<Ref>)
    requires Distinct(changes) && forall r :: Change(r, action) in changes <==> r in refs
    ensures Count(changes, action) == |refs|
  {
    hide Distinct;
    CountRefs(changes, |changes|, action);
    assert RefsTo(changes, |changes|, action) == refs by {
      forall r | r in refs ensures r in RefsTo(changes, |changes|, action) {
        var i :| 0 <= i < |changes| && changes[i] == Change(r, action);
      }
      forall r | r in RefsTo(changes, |changes|, action) ensures r in refs {
        var i :| 0 <= i < |changes| && changes[i].action == action && changes[i].ref == r;
        assert changes[i] == Change(r, action);
      }
    }
  }

  lemma ChangedState(db: Db, q: Request, p: Plan)
    requires forall r, action :: Change(r, action) in p.changes <==> r in RefsFor(db, q, action)
    ensures Changed(p) <==> ToLeave(db, q) != CoveredRefs(db, q)
  {
    if Changed(p) {
      var ch :| ch in p.changes && ch.action != Unchanged;
      assert Change(ch.ref, ch.action) in p.changes;
      assert ch.ref in RefsFor(db, q, ch.action) && ch.ref in CoveredRefs(db, q) && ch.ref !in ToLeave(db, q);
    }
    if ToLeave(db, q) != CoveredRefs(db, q) {
      var r :| r in CoveredRefs(db, q) && r !in ToLeave(db, q);
      var action := if r in ToCreate(db, q) then Created else if r in ToUpdate(db, q) then Updated
                    else if r in ToDelete(db, q) then Deleted else Orphaned;
      assert Change(r, action) in p.changes;
    }
  }

  // ---------- Against the catalog an apply leaves ----------

  ghost predicate OrphanAt(db: Db, k: Key) {
    k in db.owners && db.owners[k].Declarative? && db.owners[k].orphaned
  }

  /** On commit, `orphaned` owners are marked that were not marked before. */
  lemma OrphansMarked(db: Db, q: Request, newIds: map<Ref, Id>, db': Db, p: Plan, dryRun: bool)
    requires AppliesTo(db, q, newIds, db') && PlanOf(ContextOf(db, q, newIds), p)
    ensures Summarize(p, q.source, db.revision, GenerationOf(db, q.source), dryRun).orphaned
         == |set k | k in db'.owners && OrphanAt(db', k) && !OrphanAt(db, k)|
  {
    hide AppliesTo, Valid, Resolved, Unused, UniqueNames, Plannable, PlanOf, ContextOf, ToOrphan, Summarize, OrphanAt;
    AppliesFacts(db, q, newIds, db');
    CountsExactly(db, q, newIds, p, db.revision, GenerationOf(db, q.source), dryRun);
    var marked := set k | k in db'.owners && OrphanAt(db', k) && !OrphanAt(db, k);
    forall k | k in marked ensures k in db.rows && RefOf(k, db.rows[k]) in ToOrphan(db, q) { MarkedPlanned(db, q, newIds, db', k); }
    forall r | r in ToOrphan(db, q) ensures exists k :: k in marked && RefOf(k, db.rows[k]) == r { PlannedMarked(db, q, newIds, db', r); }
    SameCount(db, marked, ToOrphan(db, q));
  }

  lemma AppliesFacts(db: Db, q: Request, newIds: map<Ref, Id>, db': Db)
    requires AppliesTo(db, q, newIds, db')
    ensures Valid(db) && Resolved(q) && Unused(db, q, newIds) && UniqueNames(db) && Plannable(ContextOf(db, q, newIds))
  {
    hide Valid, Resolved, Unused, UniqueNames, Plannable, Changes, KeyClash, Applied, LoadedFrom;
  }

  lemma OwnersThere(db: Db, q: Request, newIds: map<Ref, Id>, db': Db)
    requires AppliesTo(db, q, newIds, db')
    ensures db.owners.Keys == db.rows.Keys && db'.owners.Keys == db'.rows.Keys
  {
    OutcomeValid(db, q, newIds, db');
    hide Outcome, RowsValid, GrantsValid, UniqueNames, LoadedFrom, Resolved, Unused;
  }

  lemma MarkedPlanned(db: Db, q: Request, newIds: map<Ref, Id>, db': Db, k: Key)
    requires AppliesTo(db, q, newIds, db') && k in db'.owners && OrphanAt(db', k) && !OrphanAt(db, k)
    ensures k in db.rows && RefOf(k, db.rows[k]) in ToOrphan(db, q)
  {
    hide AppliesTo, HashOf, Taken, GenerationOf;
    OwnersThere(db, q, newIds, db');
    EveryOrigin(db, q, newIds, db', k);
    EveryFate(db, q, newIds, db', k);
    OnlyHolder(db, q, newIds, db', k);
    assert OwnedBy(db, q.source, k);
  }

  lemma OnlyHolder(db: Db, q: Request, newIds: map<Ref, Id>, db': Db, k: Key)
    requires AppliesTo(db, q, newIds, db') && k in db.rows
    ensures forall j :: j in db.rows && RefOf(j, db.rows[j]) == RefOf(k, db.rows[k]) ==> j == k
  {
    hide Outcome, RowsValid, LoadedFrom, Resolved, Unused;
  }

  lemma PlannedMarked(db: Db, q: Request, newIds: map<Ref, Id>, db': Db, r: Ref)
    requires AppliesTo(db, q, newIds, db') && r in ToOrphan(db, q)
    ensures exists k :: k in db.rows && RefOf(k, db.rows[k]) == r && k in db'.owners && OrphanAt(db', k) && !OrphanAt(db, k)
  {
    hide AppliesTo, HashOf, Taken, GenerationOf;
    OwnersThere(db, q, newIds, db');
    var k :| k in db.rows && OwnedBy(db, q.source, k) && RefOf(k, db.rows[k]) == r;
    EveryFate(db, q, newIds, db', k);
    OnlyHolder(db, q, newIds, db', k);
  }

  /** Resources and their names are as many. */
  lemma {:induction false} SameCount(db: Db, keys: set<Key>, refs: set<Ref>)
    requires UniqueNames(db) && forall k :: k in keys ==> k in db.rows && RefOf(k, db.rows[k]) in refs
    requires forall r :: r in refs ==> exists k :: k in keys && RefOf(k, db.rows[k]) == r
    ensures |keys| == |refs|
    decreases keys
  {
    if keys != {} {
      var k :| k in keys;
      var r := RefOf(k, db.rows[k]);
      forall j | j in keys - {k} ensures RefOf(j, db.rows[j]) in refs - {r} { assert RefOf(j, db.rows[j]) != r; }
      forall t | t in refs - {r} ensures exists j :: j in keys - {k} && RefOf(j, db.rows[j]) == t {
        var j :| j in keys && RefOf(j, db.rows[j]) == t;
        assert j in keys - {k};
      }
      SameCount(db, keys - {k}, refs - {r});
    } else {
      assert refs == {};
    }
  }

  /** Planned again on the catalog it left, a request reports all its resources as untouched. */
  lemma RepeatReportsUntouched(db: Db, q: Request, newIds: map<Ref, Id>, db': Db, newIds': map<Ref, Id>, p: Plan, dryRun: bool)
    requires AppliesTo(db, q, newIds, db') && Unused(db', q, newIds') && Valid(db') && UniqueNames(db')
    requires PlanOf(ContextOf(db', q, newIds'), p)
    ensures var s := Summarize(p, q.source, db'.revision, GenerationOf(db', q.source), dryRun);
      && s.created == s.updated == s.deleted == s.orphaned == 0 && s.untouched == |CoveredRefs(db', q)| == |s.changes|
      && s.newRevision == s.baseRevision && s.generation == GenerationOf(db', q.source)
  {
    hide AppliesTo, Valid, Resolved, Unused, UniqueNames, Plannable, PlanOf, LoadedFrom, Outcome, CoveredRefs, Summarize, ContextOf,
         ToCreate, ToUpdate, ToDelete, ToOrphan;
    AppliesFacts(db, q, newIds, db');
    ApplyIdempotent(db, q, newIds, db', newIds');
    RepeatPlannable(db', q, newIds');
    CountsExactly(db', q, newIds', p, db'.revision, GenerationOf(db', q.source), dryRun);
    forall r, action | r in RefsFor(db', q, action) ensures action == Unchanged {
      EntriesExactly(db', q, newIds', p);
      RepeatUnchanged(db', q, newIds', p, r, action);
    }
    assert ToCreate(db', q) == RefsFor(db', q, Created) == {};
    assert ToUpdate(db', q) == RefsFor(db', q, Updated) == {};
    assert ToDelete(db', q) == RefsFor(db', q, Deleted) == {};
    assert ToOrphan(db', q) == RefsFor(db', q, Orphaned) == {};
    assert ToLeave(db', q) == CoveredRefs(db', q);
    SumOfCounts(p, q.source, db'.revision, GenerationOf(db', q.source), dryRun);
  }

  lemma SumOfCounts(p: Plan, source: SourceId, baseRevision: nat, generation: nat, dryRun: bool)
    ensures var s := Summarize(p, source, baseRevision, generation, dryRun);
      s.created + s.updated + s.deleted + s.orphaned + s.untouched == |s.changes|
  {
    CountsAddUp(p.changes, |p.changes|);
  }

  lemma RepeatPlannable(db: Db, q: Request, newIds: map<Ref, Id>)
    requires Valid(db) && UniqueNames(db) && LoadedFrom(ContextOf(db, q, newIds), db) && Outcome(db, q, newIds) == Ok(db)
    ensures Plannable(ContextOf(db, q, newIds))
  {
    hide Valid, UniqueNames, LoadedFrom, Plannable, Applied, KeyClash, Changes;
  }

  lemma RepeatUnchanged(db: Db, q: Request, newIds: map<Ref, Id>, p: Plan, r: Ref, action: Action)
    requires UniqueNames(db) && PlanOf(ContextOf(db, q, newIds), p) && Change(r, action) in p.changes
    requires var c := ContextOf(db, q, newIds); forall r :: c.Covered(r) ==> c.ActionOf(r) == Unchanged
    ensures action == Unchanged
  {
    RecordedEntry(ContextOf(db, q, newIds), p, r, action);
  }
}
