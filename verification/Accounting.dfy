/** Revisions and generations over every run. */
module Accounting {
  import opened Wrappers
  import opened Names
  import opened Schema
  import opened Decisions
  import opened LocalEdits
  import opened AtomicApply
  import opened Applications
  import opened AppliedConstraints
  import opened Planner
  import opened Histories

  /** The sum of all source generations. */
  ghost function Total(sources: map<SourceId, Source>): nat
    decreases sources.Keys
  {
    if sources.Keys == {} then 0
    else
      var s :| s in sources.Keys;
      sources[s].generation + Total(sources - {s})
  }

  lemma {:induction false} TotalWithout(sources: map<SourceId, Source>, s: SourceId)
    requires s in sources
    ensures Total(sources) == sources[s].generation + Total(sources - {s})
    decreases sources.Keys
  {
    var t :| t in sources.Keys && Total(sources) == sources[t].generation + Total(sources - {t});
    if t != s {
      TotalWithout(sources - {t}, s);
      TotalWithout(sources - {s}, t);
      assert sources - {t} - {s} == sources - {s} - {t};
    }
  }

  lemma TotalUpdate(sources: map<SourceId, Source>, s: SourceId, source: Source)
    ensures Total(sources[s := source]) ==
      Total(sources) - (if s in sources then sources[s].generation else 0) + source.generation
  {
    TotalWithout(sources[s := source], s);
    if s in sources {
      TotalWithout(sources, s);
      assert sources[s := source] - {s} == sources - {s};
    } else {
      assert sources[s := source] - {s} == sources;
    }
  }

  ghost predicate SuccessesOk(sources: map<SourceId, Source>, revision: nat) {
    && (forall s :: s in sources && sources[s].lastSuccess.Some? ==> sources[s].lastSuccess.value <= revision)
    && (forall s, t :: s in sources && t in sources && s != t && sources[s].lastSuccess.Some? ==>
          sources[s].lastSuccess != sources[t].lastSuccess)
  }

  ghost predicate GenerationsOk(owners: map<Key, Owner>, sources: map<SourceId, Source>) {
    forall k :: k in owners && owners[k].Declarative? ==>
      owners[k].source in sources && owners[k].generation <= sources[owners[k].source].generation
  }

  /** The books balance. */
  ghost predicate Balanced(db: Db) {
    Total(db.sources) <= db.revision && SuccessesOk(db.sources, db.revision) && GenerationsOk(db.owners, db.sources)
  }

  /** What the planner and other writers can see of the catalog. */
  ghost predicate SameContent(db: Db, db': Db) {
    && db'.rows == db.rows && db'.allow == db.allow && db'.owners == db.owners
    && forall s :: GenerationOf(db', s) == GenerationOf(db, s)
  }

  /** Every content write raises the revision by one; nothing lowers it. */
  lemma WritesRaiseRevision(db: Db, e: Event, db': Db)
    requires Follows(db, e, db')
    ensures db'.revision == db.revision + 1 || (db'.revision == db.revision && SameContent(db, db'))
  {
    match e
    case Editing(edit) =>
      if Admits(db, edit) { EditRaises(db, edit); }
    case Failing(source, code) =>
    case Applying(q, newIds) =>
      hide Outcome, Valid;
      ApplyStep(db, q, newIds);
      if db' != db { ApplyRaises(db, q, newIds, db'); }
  }

  lemma EditRaises(db: Db, e: Edit)
    requires Valid(db) && Admits(db, e)
    ensures Effect(db, e).revision == db.revision + 1 || Effect(db, e) == db
  {
  }

  /** A changing apply moves the revision and its own source row, and nothing else of the accounts. */
  lemma ApplyRaises(db: Db, q: Request, newIds: map<Ref, Id>, db': Db)
    requires AppliesTo(db, q, newIds, db') && db' != db
    ensures db'.revision == db.revision + 1
    ensures db'.sources == db.sources[q.source := Source(GenerationOf(db, q.source) + 1, Some(db.revision + 1), None)]
  {
    hide Applied, LoadedFrom, Valid, UniqueNames, Plannable, KeyClash, Changes, Resolved, Unused;
    var c := ContextOf(db, q, newIds);
    LoadedParts(c, db);
    SourcesAfter(c, db, GenerationOf(db, q.source) + 1, db.revision + 1);
  }

  /** A changing apply forgets the source's last error. */
  lemma SuccessClearsError(db: Db, q: Request, newIds: map<Ref, Id>, db': Db)
    requires AppliesTo(db, q, newIds, db') && db' != db
    ensures q.source in db'.sources && db'.sources[q.source].lastError == None
    ensures db'.sources[q.source].generation == (if q.source in db.sources then db.sources[q.source].generation else 0) + 1
  {
    hide AppliesTo;
    ApplyRaises(db, q, newIds, db');
  }

  lemma EditBalanced(db: Db, e: Edit)
    requires Valid(db) && Admits(db, e) && Balanced(db)
    ensures Balanced(Effect(db, e))
  {
    hide RowsValid, GrantsValid, Unclashed, AssetRowFor, CredentialRowFor, NewKeyRow, MaterialOk, AssetOk, Writable, Total;
  }

  lemma FailureBalanced(db: Db, source: SourceId, code: ErrorCode)
    requires Balanced(db)
    ensures Balanced(RecordFailure(db, source, code))
  {
    hide Total;
    TotalUpdate(db.sources, source, RecordFailure(db, source, code).sources[source]);
  }

  /** Owned rows written by an apply carry its generation; the others keep theirs. */
  lemma OwnerGenerations(c: Ctx, db: Db, generation: nat, revision: nat, k: Key)
    requires LoadedFrom(c, db) && k in Applied(c, db, generation, revision).owners
    requires Applied(c, db, generation, revision).owners[k].Declarative?
    ensures var owner := Applied(c, db, generation, revision).owners[k];
      || (owner.source == c.source && owner.generation == generation)
      || (k in db.owners && db.owners[k].Declarative?
          && db.owners[k].source == owner.source && db.owners[k].generation == owner.generation)
  {
    hide Applied, Valid, UniqueNames, Load;
    AppliedValidOwners(c, db, generation, revision);
    AppliedRowName(c, db, generation, revision, k);
    var r := RefOf(k, Applied(c, db, generation, revision).rows[k]);
    AppliedAt(c, db, generation, revision, r);
    if !c.Writes(r) { LoadedRef(c, db, r); }
  }

  lemma AppliedValidOwners(c: Ctx, db: Db, generation: nat, revision: nat)
    requires LoadedFrom(c, db)
    ensures Applied(c, db, generation, revision).owners.Keys == Applied(c, db, generation, revision).rows.Keys
  {
    OwnersStay(c, db, generation, revision);
    hide Applied, LoadedFrom;
  }

  lemma ApplyBalanced(db: Db, q: Request, newIds: map<Ref, Id>, db': Db)
    requires AppliesTo(db, q, newIds, db') && Balanced(db)
    ensures Balanced(db')
  {
    hide Applied, LoadedFrom, Valid, UniqueNames, Plannable, KeyClash, Changes, Resolved, Unused, Total, Load;
    if db' != db {
      ApplyRaises(db, q, newIds, db');
      TotalUpdate(db.sources, q.source, db'.sources[q.source]);
      var c := ContextOf(db, q, newIds);
      var generation, revision := GenerationOf(db, q.source) + 1, db.revision + 1;
      forall k | k in db'.owners && db'.owners[k].Declarative?
        ensures db'.owners[k].source in db'.sources
        ensures db'.owners[k].generation <= db'.sources[db'.owners[k].source].generation
      {
        OwnerGenerations(c, db, generation, revision, k);
      }
    }
  }

  lemma StepBalanced(db: Db, e: Event, db': Db)
    requires Follows(db, e, db') && Balanced(db)
    ensures Balanced(db')
  {
    hide Outcome, AppliesTo, Balanced;
    match e
    case Editing(edit) =>
      if Admits(db, edit) { EditBalanced(db, edit); }
    case Failing(source, code) => FailureBalanced(db, source, code);
    case Applying(q, newIds) =>
      ApplyStep(db, q, newIds);
      if db' != db { ApplyBalanced(db, q, newIds, db'); }
  }

  /** In every reachable state the generations sum to at most the revision, successes are dated no
      later than it and never shared by two sources, and no owned row is ahead of its source. */
  lemma {:induction false} RunBalanced(states: seq<Db>, events: seq<Event>, i: nat)
    requires Run(states, events) && states[0] == EMPTY && i < |states|
    ensures Balanced(states[i])
  {
    hide Follows, Valid, Balanced;
    if i == 0 {
      EmptyBalanced();
    } else {
      RunBalanced(states, events, i - 1);
      StepBalanced(states[i - 1], events[i - 1], states[i]);
    }
  }

  lemma EmptyBalanced()
    ensures Balanced(EMPTY)
  {
  }

  /** A changing apply dates its success strictly later than any success before it. */
  lemma SuccessesIncrease(db: Db, q: Request, newIds: map<Ref, Id>, db': Db, s: SourceId)
    requires AppliesTo(db, q, newIds, db') && db' != db && Balanced(db)
    requires s in db.sources && db.sources[s].lastSuccess.Some?
    ensures q.source in db'.sources && db'.sources[q.source].lastSuccess.Some?
    ensures db.sources[s].lastSuccess.value < db'.sources[q.source].lastSuccess.value == db'.revision
  {
    hide AppliesTo, Total;
    ApplyRaises(db, q, newIds, db');
  }

  /** A source's success and generation at one time are none the later ones take back. */
  predicate NotBehind(before: Source, after: Source) {
    && before.generation <= after.generation
    && (before.lastSuccess.Some? ==> after.lastSuccess.Some? && before.lastSuccess.value <= after.lastSuccess.value)
  }

  ghost predicate ChangesBy(db: Db, e: Event, db': Db, s: SourceId) {
    e.Applying? && e.request.source == s && db' != db
  }

  lemma StepAccounts(db: Db, e: Event, db': Db, s: SourceId)
    requires Follows(db, e, db') && Balanced(db)
    ensures s in db.sources ==> s in db'.sources && NotBehind(db.sources[s], db'.sources[s])
    ensures ChangesBy(db, e, db', s) ==>
      && s in db'.sources && db'.sources[s].lastSuccess == Some(db.revision + 1)
      && db'.sources[s].generation == GenerationOf(db, s) + 1
  {
    hide Outcome, AppliesTo, Total, Valid;
    match e
    case Editing(edit) =>
      if Admits(db, edit) { EditKeepsSources(db, edit); }
    case Failing(_, _) =>
    case Applying(q, newIds) =>
      ApplyStep(db, q, newIds);
      if db' != db { ApplyRaises(db, q, newIds, db'); }
  }

  lemma EditKeepsSources(db: Db, e: Edit)
    requires Valid(db) && Admits(db, e)
    ensures Effect(db, e).sources == db.sources
  {
  }

  /** Over every run no source's last success or generation ever falls. */
  lemma {:induction false} AccountsNeverFall(states: seq<Db>, events: seq<Event>, i: nat, j: nat, s: SourceId)
    requires Run(states, events) && states[0] == EMPTY && i <= j < |states| && s in states[i].sources
    ensures s in states[j].sources && NotBehind(states[i].sources[s], states[j].sources[s])
    decreases j - i
  {
    hide Follows, Valid, Balanced;
    if i < j {
      AccountsNeverFall(states, events, i, j - 1, s);
      RunBalanced(states, events, j - 1);
      StepAccounts(states[j - 1], events[j - 1], states[j], s);
    }
  }

  /** Over every run, with each changing apply of its own between two times, a source's last success and
      generation rise strictly from the one to the other. */
  lemma SuccessesRise(states: seq<Db>, events: seq<Event>, i: nat, n: nat, j: nat, s: SourceId)
    requires Run(states, events) && states[0] == EMPTY && i <= n < j < |states|
    requires ChangesBy(states[n], events[n], states[n + 1], s)
    ensures s in states[j].sources && states[j].sources[s].lastSuccess.Some?
    ensures s in states[i].sources ==>
      && states[i].sources[s].generation < states[j].sources[s].generation
      && (states[i].sources[s].lastSuccess.Some? ==> states[i].sources[s].lastSuccess.value < states[j].sources[s].lastSuccess.value)
  {
    hide Follows, Valid, Total, GenerationsOk;
    RunBalanced(states, events, n);
    StepAccounts(states[n], events[n], states[n + 1], s);
    AccountsNeverFall(states, events, n + 1, j, s);
    if s in states[i].sources { AccountsNeverFall(states, events, i, n, s); }
  }

  /** A failed apply and its failure record move neither content, revision, generations nor successes. */
  lemma FailureInvisible(db: Db, q: Request, newIds: map<Ref, Id>, source: SourceId, code: ErrorCode)
    requires Valid(db) && Legal(db, Applying(q, newIds))
    requires UniqueNames(db) && ContextOf(db, q, newIds).IdsDistinct() && Outcome(db, q, newIds).Err?
    ensures var db' := RecordFailure(Step(db, Applying(q, newIds)), source, code);
      && db'.revision == db.revision && SameContent(db, db')
      && (forall s :: s in db.sources ==> s in db'.sources && db'.sources[s].lastSuccess == db.sources[s].lastSuccess)
      && source in db'.sources && db'.sources[source].lastError == Some(code)
      && (forall s :: s != source ==> (s in db'.sources <==> s in db.sources) && (s in db.sources ==> db'.sources[s] == db.sources[s]))
  {
    hide Outcome, Valid;
  }
}
