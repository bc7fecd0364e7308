/** The results about runs, for interleaved executions. */
module Concurrency {
  import opened Names
  import opened Schema
  import opened AtomicApply
  import opened Histories
  import opened Convergence
  import opened Drift
  import opened NoResurrection
  import opened AccessScope
  import opened Interleaving

  // ---------- Convergence ----------

  /** Every manifest anybody sets out to apply for the source stands on its own. */
  ghost predicate DisciplinedMoves(moves: seq<Move>, source: SourceId) {
    forall j :: 0 <= j < |moves| && moves[j].Begin? && moves[j].request.source == source ==> SelfContained(moves[j].request)
  }

  ghost predicate DisciplinedFlights(s: System, source: SourceId) {
    forall pid :: pid in s.flights && s.flights[pid].request.source == source ==> SelfContained(s.flights[pid].request)
  }

  lemma {:induction false} FlightsDisciplined(systems: seq<System>, moves: seq<Move>, i: nat, source: SourceId)
    requires Execution(systems, moves) && DisciplinedMoves(moves, source) && i < |systems|
    ensures DisciplinedFlights(systems[i], source)
  {
    hide Next, SelfContained, DisciplinedFlights;
    if i == 0 {
      NoFlights(source);
    } else {
      FlightsDisciplined(systems, moves, i - 1, source);
      MoveDisciplined(systems[i - 1], moves[i - 1], systems[i], source);
    }
  }

  lemma NoFlights(source: SourceId)
    ensures DisciplinedFlights(INITIAL, source)
  {
  }

  lemma MoveDisciplined(s: System, m: Move, s': System, source: SourceId)
    requires Next(s, m, s') && DisciplinedFlights(s, source)
    requires m.Begin? && m.request.source == source ==> SelfContained(m.request)
    ensures DisciplinedFlights(s', source)
  {
    hide SelfContained, ReadyToCommit, Executes, Legal, Step, Valid, UniqueNames, Resolved;
  }

  /** The events of a disciplined execution are those of a disciplined run. */
  lemma EventsDisciplined(systems: seq<System>, moves: seq<Move>, i: nat, states: seq<Db>, events: seq<Event>, at: seq<nat>,
                          source: SourceId)
    requires Execution(systems, moves) && DisciplinedMoves(moves, source) && i < |systems|
    requires Serializes(systems, moves, i, states, events, at)
    ensures Disciplined(events, source)
  {
    hide SelfContained, Follows, Valid, Next, DisciplinedFlights, DisciplinedMoves;
    forall k | 0 <= k < |events| && events[k].Applying? && events[k].request.source == source
      ensures SelfContained(events[k].request)
    {
      assert IsEvent(systems, moves, at[k], states[k], events[k], states[k + 1]);
      FlightsDisciplined(systems, moves, at[k], source);
      EventDisciplined(systems[at[k]], moves[at[k]], systems[at[k] + 1], source);
    }
  }

  lemma EventDisciplined(s: System, m: Move, s': System, source: SourceId)
    requires Next(s, m, s') && DisciplinedFlights(s, source) && (m.Write? || (m.Commit? && m.pid in s.flights))
    ensures var e := EventOf(s, m); e.Applying? && e.request.source == source ==> SelfContained(e.request)
  {
    hide SelfContained, ReadyToCommit, Executes, Legal, Step, Valid, UniqueNames;
  }

  /** A commit that changed the catalog, seen from the run it ends. */
  lemma CommitRun(systems: seq<System>, moves: seq<Move>, j: nat, pid: Pid)
    returns (states: seq<Db>, events: seq<Event>, at: seq<nat>)
    requires Execution(systems, moves) && j < |moves| && moves[j] == Commit(pid) && systems[j + 1].db != systems[j].db
    ensures pid in systems[j].flights
    ensures Serializes(systems, moves, j + 1, states, events, at) && |events| > 0
    ensures var f := systems[j].flights[pid];
      && events[|events| - 1] == Applying(f.request, f.newIds)
      && states[|events| - 1] == systems[j].db && states[|events|] == systems[j + 1].db
      && AppliesTo(systems[j].db, f.request, f.newIds, systems[j + 1].db)
  {
    hide Inv, Follows, Valid, Serializes, Step, Run, AppliesTo, ReadyToCommit, Executes, Resolved, UniqueNames;
    ExecutionInv(systems, moves, j);
    MoveIsEvent(systems[j], moves[j], systems[j + 1]);
    var before, done, places := ExecutionSerializes(systems, moves, j);
    SerializesOneMore(systems, moves, j, before, done, places);
    var f := systems[j].flights[pid];
    states, events, at := before + [systems[j + 1].db], done + [Applying(f.request, f.newIds)], places + [j];
    SerializedLength(systems, moves, j, before, done, places);
    CommitApplies(systems[j].db, f.request, f.newIds, systems[j + 1].db);
  }

  lemma SerializedLength(systems: seq<System>, moves: seq<Move>, i: nat, states: seq<Db>, events: seq<Event>, at: seq<nat>)
    requires |systems| == |moves| + 1 && i < |systems| && Serializes(systems, moves, i, states, events, at)
    ensures |states| == |events| + 1 && states[|events|] == systems[i].db
  {
    hide Follows, Valid;
  }

  lemma CommitApplies(db: Db, q: Request, newIds: map<Ref, Id>, db': Db)
    requires Follows(db, Applying(q, newIds), db') && db' != db
    ensures AppliesTo(db, q, newIds, db')
  {
    hide Valid, AppliesTo, Resolved, Unused, Outcome;
    ApplyStep(db, q, newIds);
  }

  /** Convergence under concurrency: whatever interleaves, a committed pruning apply of a disciplined
      source leaves it owning exactly the declared resources, each stored as declared. */
  lemma InterleavedConverges(systems: seq<System>, moves: seq<Move>, j: nat, pid: Pid)
    requires Execution(systems, moves) && j < |moves| && moves[j] == Commit(pid) && systems[j + 1].db != systems[j].db
    requires pid in systems[j].flights && systems[j].flights[pid].request.prune
    requires DisciplinedMoves(moves, systems[j].flights[pid].request.source)
    ensures var q, db' := systems[j].flights[pid].request, systems[j + 1].db;
      && OwnsExactly(db', q) && UniqueNames(db')
      && forall r :: r in q.decls && q.decls[r].Present? ==> StoredAsDeclared(db', r, q.decls[r].spec)
  {
    hide Next, Serializes, Run, AppliesTo, OwnsExactly, UniqueNames, StoredAsDeclared, Disciplined, DisciplinedMoves;
    var states, events, at := CommitRun(systems, moves, j, pid);
    var f := systems[j].flights[pid];
    SerializesRun(systems, moves, j + 1, states, events, at);
    EventsDisciplined(systems, moves, j + 1, states, events, at, f.request.source);
    Converges(states, events, |events| - 1, f.request, f.newIds);
  }

  lemma SerializesRun(systems: seq<System>, moves: seq<Move>, i: nat, states: seq<Db>, events: seq<Event>, at: seq<nat>)
    requires |systems| == |moves| + 1 && i < |systems| && Serializes(systems, moves, i, states, events, at)
    ensures Run(states, events) && states[0] == EMPTY
  {
    hide Follows, Valid;
  }

  /** Without the discipline: what a commit leaves as declared is exactly what it wrote and what stood
      already in the catalog it locked. */
  lemma InterleavedConvergesExactly(systems: seq<System>, moves: seq<Move>, j: nat, pid: Pid, r: Ref)
    requires Execution(systems, moves) && j < |moves| && moves[j] == Commit(pid) && systems[j + 1].db != systems[j].db
    requires pid in systems[j].flights && r in systems[j].flights[pid].request.decls
    requires systems[j].flights[pid].request.decls[r].Present?
    ensures UniqueNames(systems[j].db) && UniqueNames(systems[j + 1].db)
    ensures var f := systems[j].flights[pid]; var c := ContextOf(systems[j].db, f.request, f.newIds);
      StoredAsDeclared(systems[j + 1].db, r, f.request.decls[r].spec) <==>
        || c.Writes(r)
        || (RowStands(c, systems[j].db, r) && (c.decls[r].spec.AccessSpec? ==> GrantsStand(c, systems[j].db, r)))
  {
    hide Next, Serializes, Run, AppliesTo, UniqueNames, StoredAsDeclared, RowStands, GrantsStand, ContextOf;
    var states, events, at := CommitRun(systems, moves, j, pid);
    var f := systems[j].flights[pid];
    SerializesRun(systems, moves, j + 1, states, events, at);
    SerializedLength(systems, moves, j + 1, states, events, at);
    ConvergesExactly(states, events, |events| - 1, f.request, f.newIds, systems[j + 1].db, r);
  }

  // ---------- Expected revisions ----------

  /** An apply that expects a revision commits at that revision or not at all. */
  lemma ExpectedRevisionKept(systems: seq<System>, moves: seq<Move>, j: nat, pid: Pid)
    requires Execution(systems, moves) && j < |moves| && moves[j] == Commit(pid) && systems[j + 1].db != systems[j].db
    requires pid in systems[j].flights && systems[j].flights[pid].expected.Some?
    ensures systems[j].db.revision == systems[j].flights[pid].expected.value
  {
    hide Executes, Changes;
    ExpectedRead(systems, moves, j);
    assert Next(systems[j], moves[j], systems[j + 1]);
  }

  ghost predicate BasesExpected(s: System) {
    forall pid :: pid in s.flights && s.flights[pid].base.Some? && s.flights[pid].expected.Some? ==>
      s.flights[pid].base == s.flights[pid].expected
  }

  lemma {:induction false} ExpectedRead(systems: seq<System>, moves: seq<Move>, i: nat)
    requires Execution(systems, moves) && i < |systems|
    ensures BasesExpected(systems[i])
  {
    hide Next;
    if i > 0 {
      ExpectedRead(systems, moves, i - 1);
      ExpectedStep(systems[i - 1], moves[i - 1], systems[i]);
    }
  }

  lemma ExpectedStep(s: System, m: Move, s': System)
    requires Next(s, m, s') && BasesExpected(s)
    ensures BasesExpected(s')
  {
    hide ReadyToCommit, Executes, Legal, Step, Valid, UniqueNames, Resolved;
  }

  // ---------- No resurrection ----------

  /** The move changes the catalog and sets the access of the key itself. */
  ghost predicate MoveRegrants(s: System, m: Move, s': System, key: Id) {
    s'.db != s.db && (m.Write? || (m.Commit? && m.pid in s.flights)) && Regrants(s.db, EventOf(s, m), key)
  }

  /** While no move sets a restricted key's own access, no interleaving enlarges what it is granted. */
  lemma {:induction false} InterleavedConfines(systems: seq<System>, moves: seq<Move>, i: nat, j: nat, key: Id)
    requires Execution(systems, moves) && i <= j < |systems| && Confined(systems[i].db, key)
    requires forall n :: i <= n < j ==> !MoveRegrants(systems[n], moves[n], systems[n + 1], key)
    ensures Confined(systems[j].db, key) && Granted(systems[j].db, key) <= Granted(systems[i].db, key)
    decreases j - i
  {
    hide Next, Inv, Follows, Confined, Granted, Regrants;
    if i < j {
      InterleavedConfines(systems, moves, i, j - 1, key);
      ExecutionInv(systems, moves, j - 1);
      var s, m, s' := systems[j - 1], moves[j - 1], systems[j];
      MoveIsEvent(s, m, s');
      if s'.db != s.db { StepConfines(s.db, EventOf(s, m), s'.db, key); }
    }
  }

  /** What a restricted key reaches at the end of such an interleaving it was granted at the start. */
  lemma InterleavedScopeNeverGrows(systems: seq<System>, moves: seq<Move>, i: nat, j: nat, key: Id, asset: Id)
    requires Execution(systems, moves) && i <= j < |systems| && Confined(systems[i].db, key)
    requires forall n :: i <= n < j ==> !MoveRegrants(systems[n], moves[n], systems[n + 1], key)
    requires KeyCanAccessAsset(systems[j].db, key, asset)
    ensures Grant(key, asset) in systems[i].db.allow && Key(Assets, asset) in systems[i].db.rows
  {
    hide Next, Confined, MoveRegrants, RowsValid, OwnersValid, KeyCanAccessAsset;
    InterleavedConfines(systems, moves, i, j, key);
    ScopeWithinGrants(systems[j].db, key, asset);
    ExecutionInv(systems, moves, i);
    assert asset in Granted(systems[i].db, key);
  }
}
