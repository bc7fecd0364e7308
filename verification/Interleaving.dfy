/** Applies as they really run: separate reads, a plan, and a commit guarded by the revision read
    first, interleaved with every other writer. */
module Interleaving {
  import opened Wrappers
  import opened Names
  import opened Schema
  import opened Decisions
  import opened LocalEdits
  import opened AtomicApply
  import opened Applications
  import opened AppliedConstraints
  import opened Planner
  import opened Histories
  import opened Accounting

  type Pid = nat

  /** One apply under way and what it has read so far. */
  datatype Flight = Flight(
    request: Request, expected: Option<nat>, dryRun: bool, newIds: map<Ref, Id>,
    base: Option<nat>, generation: Option<nat>, tables: map<Kind, map<Ref, Existing>>)

  datatype System = System(db: Db, flights: map<Pid, Flight>, issued: set<Id>)

  datatype Move =
    | Write(event: Event)
    | Begin(pid: Pid, request: Request, expected: Option<nat>, dryRun: bool, newIds: map<Ref, Id>)
    | ReadRevision(pid: Pid)
    | ReadGeneration(pid: Pid)
    | ReadTable(pid: Pid, kind: Kind)
    | GiveUp(pid: Pid)
    | Commit(pid: Pid)

  function NewIdOf(e: Edit): Option<Id> {
    match e
    case AddCredential(id, _) => Some(id)
    case AddAsset(id, _) => Some(id)
    case AddKey(id, _, _, _, _) => Some(id)
    case _ => None
  }

  /** The context a flight plans on: its own reads, put together. */
  function PlanningContext(f: Flight): Ctx
    requires f.tables.Keys == {Credentials, Assets, AccessKeys}
  {
    Ctx(f.request.source, f.request.decls, f.request.prune,
        f.tables[Credentials] + f.tables[Assets] + f.tables[AccessKeys], f.newIds)
  }

  ghost predicate ReadyToCommit(f: Flight) {
    && !f.dryRun && f.base.Some? && f.generation.Some? && f.tables.Keys == {Credentials, Assets, AccessKeys}
    && Plannable(PlanningContext(f)) && Changes(PlanningContext(f))
  }

  /** What executing a plan may do once the lock is held. Its contract covers only a plan made from
      the very tables it runs on; of any other plan nothing is assumed. */
  ghost predicate Executes(c: Ctx, db: Db, generation: nat, revision: nat, db': Db) {
    LoadedFrom(c, db) ==> db' == if KeyClash(c, db) then db else Applied(c, db, generation, revision)
  }

  ghost predicate Next(s: System, m: Move, s': System) {
    match m
    case Write(e) =>
      && !e.Applying? && Legal(s.db, e) && Valid(s.db)
      && (e.Editing? && NewIdOf(e.edit).Some? ==> NewIdOf(e.edit).value !in s.issued)
      && s' == s.(db := Step(s.db, e),
                  issued := if e.Editing? && NewIdOf(e.edit).Some? then s.issued + {NewIdOf(e.edit).value} else s.issued)
    case Begin(pid, q, expected, dryRun, newIds) =>
      && pid !in s.flights && Resolved(q) && newIds.Keys == q.decls.Keys
      && (forall r, t :: r in newIds && t in newIds && r != t ==> newIds[r] != newIds[t])
      && newIds.Values !! s.issued
      && s' == s.(flights := s.flights[pid := Flight(q, expected, dryRun, newIds, None, None, map[])],
                  issued := s.issued + newIds.Values)
    case ReadRevision(pid) =>
      && pid in s.flights && s.flights[pid].base == None
      && s' == if s.flights[pid].expected.Some? && s.flights[pid].expected.value != s.db.revision
               then s.(flights := s.flights - {pid})
               else s.(flights := s.flights[pid := s.flights[pid].(base := Some(s.db.revision))])
    case ReadGeneration(pid) =>
      && pid in s.flights && s.flights[pid].base.Some? && s.flights[pid].generation == None
      && s' == s.(flights := s.flights[pid :=
                 s.flights[pid].(generation := Some(GenerationOf(s.db, s.flights[pid].request.source)))])
    case ReadTable(pid, kind) =>
      && pid in s.flights && s.flights[pid].generation.Some? && kind !in s.flights[pid].tables
      && UniqueNames(s.db)
      && s' == s.(flights := s.flights[pid :=
                 s.flights[pid].(tables := s.flights[pid].tables[kind := LoadKind(s.db, kind)])])
    case GiveUp(pid) =>
      // A dry run, an unchanged plan, a planning error, or a caller that went away.
      pid in s.flights && s' == s.(flights := s.flights - {pid})
    case Commit(pid) =>
      && pid in s.flights && ReadyToCommit(s.flights[pid])
      && s'.flights == s.flights - {pid} && s'.issued == s.issued
      && var f := s.flights[pid];
         if s.db.revision != f.base.value then s'.db == s.db
         else Executes(PlanningContext(f), s.db, f.generation.value + 1, f.base.value + 1, s'.db)
  }

  // ---------- The invariant ----------

  /** As long as the revision read first is still current, so is everything read since. */
  ghost predicate ReadsCurrent(db: Db, f: Flight)
    requires UniqueNames(db)
  {
    && (f.generation.Some? || f.tables.Keys != {} ==> f.base.Some?)
    && (f.base.Some? ==>
          && f.base.value <= db.revision
          && (f.base.value == db.revision ==>
                && (f.generation.Some? ==> f.generation.value == GenerationOf(db, f.request.source))
                && (forall kind :: kind in f.tables ==> f.tables[kind] == LoadKind(db, kind))))
  }

  ghost predicate IdsApart(db: Db, issued: set<Id>, f: Flight) {
    && Resolved(f.request) && Unused(db, f.request, f.newIds) && f.newIds.Values <= issued
    && forall k :: k in db.rows ==> k.id !in f.newIds.Values
  }

  ghost predicate Inv(s: System) {
    && Valid(s.db) && UniqueNames(s.db)
    && (forall k :: k in s.db.rows ==> k.id in s.issued)
    && (forall pid :: pid in s.flights ==> ReadsCurrent(s.db, s.flights[pid]) && IdsApart(s.db, s.issued, s.flights[pid]))
    && (forall p, r :: p in s.flights && r in s.flights && p != r ==>
          s.flights[p].newIds.Values !! s.flights[r].newIds.Values)
  }

  // ---------- A successful lock means the reads were one snapshot ----------

  lemma SnapshotContext(db: Db, issued: set<Id>, f: Flight)
    requires Valid(db) && UniqueNames(db) && ReadsCurrent(db, f) && IdsApart(db, issued, f)
    requires f.base == Some(db.revision) && f.generation.Some? && f.tables.Keys == {Credentials, Assets, AccessKeys}
    ensures PlanningContext(f) == ContextOf(db, f.request, f.newIds)
    ensures f.generation.value == GenerationOf(db, f.request.source)
    ensures LoadedFrom(PlanningContext(f), db)
  {
    hide Valid, UniqueNames, Resolved, Unused, Load, LoadKind, LoadedFrom;
    LoadedTogether(db);
    ContextLoaded(db, f.request, f.newIds);
  }

  /** Serializability: a commit that gets past the lock is the atomic plan-and-execute at that
      moment, however its reads were spread out and whatever ran in between. */
  lemma CommitIsAtomic(s: System, pid: Pid, s': System)
    requires Inv(s) && Next(s, Commit(pid), s')
    ensures var f := s.flights[pid];
      if s.db.revision == f.base.value
      then Follows(s.db, Applying(f.request, f.newIds), s'.db)
      else s'.db == s.db
  {
    hide Valid, UniqueNames, Resolved, Unused, Load, LoadKind, LoadedFrom, Plannable, Changes, KeyClash, Applied,
         ReadsCurrent, IdsApart;
    var f := s.flights[pid];
    if s.db.revision == f.base.value {
      InvAt(s, pid);
      SnapshotContext(s.db, s.issued, f);
    }
  }

  lemma InvAt(s: System, pid: Pid)
    requires Inv(s) && pid in s.flights
    ensures Valid(s.db) && UniqueNames(s.db) && ReadsCurrent(s.db, s.flights[pid]) && IdsApart(s.db, s.issued, s.flights[pid])
    ensures Resolved(s.flights[pid].request) && Unused(s.db, s.flights[pid].request, s.flights[pid].newIds)
  {
  }

  // ---------- The invariant holds along every execution ----------

  /** What a write does to the ids in use. */
  lemma StepIds(db: Db, e: Event, db': Db)
    requires Follows(db, e, db')
    ensures forall k :: k in db'.rows ==> k in db.rows || match e
      case Editing(edit) => NewIdOf(edit) == Some(k.id)
      case Failing(_, _) => false
      case Applying(_, newIds) => k.id in newIds.Values
  {
    match e
    case Editing(edit) =>
      if Admits(db, edit) { EditIds(db, edit); }
    case Failing(_, _) =>
    case Applying(q, newIds) =>
      hide Valid, Outcome;
      ApplyStep(db, q, newIds);
      if db' != db { ApplyIds(db, q, newIds, db'); }
  }

  lemma EditIds(db: Db, e: Edit)
    requires Valid(db) && Admits(db, e)
    ensures forall k :: k in Effect(db, e).rows ==> k in db.rows || NewIdOf(e) == Some(k.id)
  {
    hide RowsValid, GrantsValid, Unclashed;
  }

  lemma ApplyIds(db: Db, q: Request, newIds: map<Ref, Id>, db': Db)
    requires AppliesTo(db, q, newIds, db') && db' != db
    ensures forall k :: k in db'.rows ==> k in db.rows || k.id in newIds.Values
  {
    hide Applied, LoadedFrom, Valid, UniqueNames, Plannable, KeyClash, Changes, Resolved, Load;
    var c := ContextOf(db, q, newIds);
    forall k | k in db'.rows ensures k in db.rows || k.id in newIds.Values {
      AppliedRowName(c, db, GenerationOf(db, q.source) + 1, db.revision + 1, k);
      var r := RefOf(k, db'.rows[k]);
      if r in c.existing {
        LoadedRef(c, db, r);
      } else {
        assert newIds[r] in newIds.Values;
      }
    }
  }

  /** Reads stay current until the revision moves. */
  lemma ReadsStayCurrent(db: Db, e: Event, db': Db, f: Flight)
    requires Follows(db, e, db') && UniqueNames(db) && UniqueNames(db') && ReadsCurrent(db, f)
    ensures ReadsCurrent(db', f)
  {
    hide Follows, UniqueNames;
    WritesRaiseRevision(db, e, db');
    if db'.revision == db.revision {
      SameLoads(db, db');
    }
  }

  lemma SameLoads(db: Db, db': Db)
    requires UniqueNames(db) && SameContent(db, db')
    ensures UniqueNames(db')
    ensures forall kind :: LoadKind(db', kind) == LoadKind(db, kind)
  {
    forall k | k in db.rows ensures ExistingAt(db', k) == ExistingAt(db, k) {
    }
  }

  /** The ids a write takes into use, all of them set aside beforehand. */
  function Taken(e: Event): set<Id> {
    match e
    case Editing(edit) => if NewIdOf(edit).Some? then {NewIdOf(edit).value} else {}
    case Failing(_, _) => {}
    case Applying(_, newIds) => newIds.Values
  }

  lemma FlightUnharmed(db: Db, e: Event, db': Db, issued: set<Id>, issued': set<Id>, f: Flight)
    requires Follows(db, e, db') && UniqueNames(db) && UniqueNames(db')
    requires ReadsCurrent(db, f) && IdsApart(db, issued, f)
    requires issued <= issued' && Taken(e) !! f.newIds.Values
    ensures ReadsCurrent(db', f) && IdsApart(db', issued', f)
  {
    hide Follows, UniqueNames, ReadsCurrent, Resolved;
    ReadsStayCurrent(db, e, db', f);
    StepIds(db, e, db');
  }

  /** A write by one party keeps the invariant of everyone else. */
  lemma WriteKeepsInv(s: System, e: Event, s': System)
    requires Inv(s) && Follows(s.db, e, s'.db)
    requires s.issued + Taken(e) <= s'.issued
    requires forall pid :: pid in s'.flights ==>
      pid in s.flights && s'.flights[pid] == s.flights[pid] && Taken(e) !! s.flights[pid].newIds.Values
    ensures Inv(s')
  {
    hide Follows, UniqueNames, ReadsCurrent, IdsApart, Valid;
    FollowsValid(s.db, e, s'.db);
    ValidUniqueNames(s'.db);
    StepIds(s.db, e, s'.db);
    forall pid | pid in s'.flights
      ensures ReadsCurrent(s'.db, s'.flights[pid]) && IdsApart(s'.db, s'.issued, s'.flights[pid])
    {
      FlightUnharmed(s.db, e, s'.db, s.issued, s'.issued, s.flights[pid]);
    }
  }

  /** A move that changes one flight's reads only. */
  lemma ReadKeepsInv(s: System, pid: Pid, f: Flight)
    requires Inv(s) && pid in s.flights && ReadsCurrent(s.db, f)
    requires f.request == s.flights[pid].request && f.newIds == s.flights[pid].newIds
    ensures Inv(s.(flights := s.flights[pid := f]))
  {
    hide UniqueNames, Valid, ReadsCurrent, Resolved, Unused;
  }

  lemma DropKeepsInv(s: System, pid: Pid)
    requires Inv(s)
    ensures Inv(s.(flights := s.flights - {pid}))
  {
    hide UniqueNames, Valid, ReadsCurrent, IdsApart;
  }

  lemma BeginKeepsInv(s: System, m: Move, s': System)
    requires Inv(s) && m.Begin? && Next(s, m, s')
    ensures Inv(s')
  {
    hide UniqueNames, Valid, Resolved, Unused, LoadKind, GenerationOf;
    NewIdsUnused(s, m.request, m.newIds);
    forall p | p in s.flights
      ensures IdsApart(s.db, s.issued + m.newIds.Values, s.flights[p]) && s.flights[p].newIds.Values !! m.newIds.Values
    {
      assert IdsApart(s.db, s.issued, s.flights[p]);
    }
  }

  /** Ids not yet issued are used by no resource. */
  lemma NewIdsUnused(s: System, q: Request, newIds: map<Ref, Id>)
    requires Inv(s) && newIds.Keys == q.decls.Keys && newIds.Values !! s.issued
    requires forall r, t :: r in newIds && t in newIds && r != t ==> newIds[r] != newIds[t]
    ensures Unused(s.db, q, newIds) && forall k :: k in s.db.rows ==> k.id !in newIds.Values
  {
    hide UniqueNames, Valid, ReadsCurrent, IdsApart;
    forall r | r in newIds ensures Key(r.kind, newIds[r]) !in s.db.rows {
      assert newIds[r] in newIds.Values;
    }
  }

  lemma NextKeepsInv(s: System, m: Move, s': System)
    requires Inv(s) && Next(s, m, s')
    ensures Inv(s')
  {
    match m
    case Write(e) =>
      hide Valid, UniqueNames, Resolved, Unused, Legal, Step, ReadsCurrent;
      forall pid | pid in s.flights ensures Taken(e) !! s.flights[pid].newIds.Values {
        assert IdsApart(s.db, s.issued, s.flights[pid]);
      }
      WriteKeepsInv(s, e, s');
    case Begin(_, _, _, _, _) => BeginKeepsInv(s, m, s');
    case ReadRevision(pid) =>
      hide Valid, UniqueNames, IdsApart;
      assert ReadsCurrent(s.db, s.flights[pid]);
      DropKeepsInv(s, pid);
      ReadKeepsInv(s, pid, s.flights[pid].(base := Some(s.db.revision)));
    case ReadGeneration(pid) =>
      hide Valid, UniqueNames, IdsApart;
      assert ReadsCurrent(s.db, s.flights[pid]);
      ReadKeepsInv(s, pid, s'.flights[pid]);
    case ReadTable(pid, kind) =>
      hide Valid, UniqueNames, IdsApart;
      assert ReadsCurrent(s.db, s.flights[pid]);
      ReadKeepsInv(s, pid, s'.flights[pid]);
    case GiveUp(pid) =>
      hide Inv;
      DropKeepsInv(s, pid);
    case Commit(pid) => CommitKeepsInv(s, pid, s');
  }

  lemma CommitKeepsInv(s: System, pid: Pid, s': System)
    requires Inv(s) && Next(s, Commit(pid), s')
    ensures Inv(s')
  {
    hide Valid, UniqueNames, Resolved, Unused, LoadedFrom, Plannable, Changes, KeyClash, Applied, ReadsCurrent, Follows, Executes;
    CommitIsAtomic(s, pid, s');
    var f := s.flights[pid];
    assert IdsApart(s.db, s.issued, f);
    if s.db.revision == f.base.value {
      WriteKeepsInv(s, Applying(f.request, f.newIds), s');
    } else {
      DropKeepsInv(s, pid);
      assert s' == s.(flights := s.flights - {pid});
    }
  }

  // ---------- Whole executions ----------

  const INITIAL := System(EMPTY, map[], {})

  ghost predicate Execution(systems: seq<System>, moves: seq<Move>) {
    && |systems| == |moves| + 1 && systems[0] == INITIAL
    && forall i :: 0 <= i < |moves| ==> Next(systems[i], moves[i], systems[i + 1])
  }

  lemma {:induction false} ExecutionInv(systems: seq<System>, moves: seq<Move>, i: nat)
    requires Execution(systems, moves) && i < |systems|
    ensures Inv(systems[i])
  {
    hide Next, Inv;
    if i == 0 {
      InitialInv();
    } else {
      ExecutionInv(systems, moves, i - 1);
      NextKeepsInv(systems[i - 1], moves[i - 1], systems[i]);
    }
  }

  lemma InitialInv()
    ensures Inv(INITIAL)
  {
  }

  /** The atomic event a move amounts to, when it changes the catalog. */
  ghost function EventOf(s: System, m: Move): Event
    requires m.Write? || (m.Commit? && m.pid in s.flights)
  {
    match m
    case Write(e) => e
    case Commit(pid) => Applying(s.flights[pid].request, s.flights[pid].newIds)
  }

  lemma MoveIsEvent(s: System, m: Move, s': System)
    requires Inv(s) && Next(s, m, s')
    ensures s'.db == s.db || ((m.Write? || (m.Commit? && m.pid in s.flights)) && Follows(s.db, EventOf(s, m), s'.db))
  {
    hide Valid, UniqueNames, Resolved, Legal, Step, Inv, Executes, ReadyToCommit;
    match m
    case Write(e) =>
    case Commit(pid) => CommitIsAtomic(s, pid, s');
    case Begin(_, _, _, _, _) =>
    case ReadRevision(_) =>
    case ReadGeneration(_) =>
    case ReadTable(_, _) =>
    case GiveUp(_) =>
  }

  /** Move `j` is the event that takes one catalog to the next. */
  ghost predicate IsEvent(systems: seq<System>, moves: seq<Move>, j: nat, db: Db, e: Event, db': Db)
    requires |systems| == |moves| + 1
  {
    && j < |moves| && systems[j].db == db && systems[j + 1].db == db'
    && (moves[j].Write? || (moves[j].Commit? && moves[j].pid in systems[j].flights))
    && e == EventOf(systems[j], moves[j])
  }

  /** The run of atomic events that the first `i` moves amount to: `at` gives the move of each event, in
      order, and every move that changed the catalog is among them. */
  ghost predicate Serializes(systems: seq<System>, moves: seq<Move>, i: nat, states: seq<Db>, events: seq<Event>, at: seq<nat>)
    requires |systems| == |moves| + 1 && i < |systems|
  {
    && Run(states, events) && states[0] == EMPTY && states[|events|] == systems[i].db
    && |at| == |events|
    && (forall k :: 0 <= k < |at| ==> at[k] < i && IsEvent(systems, moves, at[k], states[k], events[k], states[k + 1]))
    && (forall k, l :: 0 <= k < l < |at| ==> at[k] < at[l])
    && (forall j :: 0 <= j < i && systems[j].db != systems[j + 1].db ==> j in at)
  }

  /** Every interleaved execution leaves the catalog as its own writes and commits do, run one after the
      other as atomic events. */
  lemma {:induction false} ExecutionSerializes(systems: seq<System>, moves: seq<Move>, i: nat)
    returns (states: seq<Db>, events: seq<Event>, at: seq<nat>)
    requires Execution(systems, moves) && i < |systems|
    ensures Serializes(systems, moves, i, states, events, at)
  {
    hide Next, Inv, Follows, Valid, Serializes;
    if i == 0 {
      states, events, at := [EMPTY], [], [];
      NothingSerialized(systems, moves);
    } else {
      states, events, at := ExecutionSerializes(systems, moves, i - 1);
      var s, s' := systems[i - 1], systems[i];
      ExecutionInv(systems, moves, i - 1);
      MoveIsEvent(s, moves[i - 1], s');
      if s'.db != s.db {
        SerializesOneMore(systems, moves, i - 1, states, events, at);
        states, events, at := states + [s'.db], events + [EventOf(s, moves[i - 1])], at + [i - 1];
      } else {
        SerializesIdle(systems, moves, i - 1, states, events, at);
      }
    }
  }

  lemma NothingSerialized(systems: seq<System>, moves: seq<Move>)
    requires Execution(systems, moves)
    ensures Serializes(systems, moves, 0, [EMPTY], [], [])
  {
    hide Next, Valid, Follows;
    EmptyValid();
  }

  lemma SerializesOneMore(systems: seq<System>, moves: seq<Move>, i: nat, states: seq<Db>, events: seq<Event>, at: seq<nat>)
    requires |systems| == |moves| + 1 && i < |moves| && Serializes(systems, moves, i, states, events, at)
    requires moves[i].Write? || (moves[i].Commit? && moves[i].pid in systems[i].flights)
    requires Follows(systems[i].db, EventOf(systems[i], moves[i]), systems[i + 1].db)
    ensures Serializes(systems, moves, i + 1, states + [systems[i + 1].db], events + [EventOf(systems[i], moves[i])], at + [i])
  {
    hide Follows, Valid, EventOf;
    var more, further, places := states + [systems[i + 1].db], events + [EventOf(systems[i], moves[i])], at + [i];
    assert Run(more, further);
    forall k | 0 <= k < |places|
      ensures places[k] < i + 1 && IsEvent(systems, moves, places[k], more[k], further[k], more[k + 1])
    {
      assert k < |at| ==> IsEvent(systems, moves, at[k], states[k], events[k], states[k + 1]);
    }
    forall j | 0 <= j < i + 1 && systems[j].db != systems[j + 1].db ensures j in places {
      assert places[|at|] == i;
      assert j < i ==> j in at;
    }
  }

  lemma SerializesIdle(systems: seq<System>, moves: seq<Move>, i: nat, states: seq<Db>, events: seq<Event>, at: seq<nat>)
    requires |systems| == |moves| + 1 && i < |moves| && Serializes(systems, moves, i, states, events, at)
    requires systems[i].db == systems[i + 1].db
    ensures Serializes(systems, moves, i + 1, states, events, at)
  {
    hide Run, IsEvent;
  }
}
