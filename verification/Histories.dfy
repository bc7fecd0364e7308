/** Every committed write to the catalog, one after the other. */
module Histories {
  import opened Wrappers
  import opened Names
  import opened Schema
  import opened LocalEdits
  import opened AtomicApply
  import opened Applications
  import opened AppliedConstraints
  import opened Planner

  datatype Event =
    | Editing(edit: Edit)
    | Failing(source: SourceId, code: ErrorCode)
    | Applying(request: Request, newIds: map<Ref, Id>)

  /** The upsert of the source row that records a failed apply. */
  function RecordFailure(db: Db, source: SourceId, code: ErrorCode): Db {
    db.(sources := db.sources[source :=
      if source in db.sources then db.sources[source].(lastError := Some(code))
      else Source(0, None, Some(code))])
  }

  /** What callers guarantee of an event. */
  ghost predicate Legal(db: Db, e: Event) {
    match e
    case Editing(edit) => CallerOk(edit)
    case Failing(_, _) => true
    case Applying(q, newIds) => Resolved(q) && Unused(db, q, newIds)
  }

  /** The state after an event; a refused transaction leaves the state alone. */
  ghost function Step(db: Db, e: Event): (db': Db)
    requires Valid(db) && Legal(db, e)
  {
    match e
    case Editing(edit) => if Admits(db, edit) then Effect(db, edit) else db
    case Failing(source, code) => RecordFailure(db, source, code)
    case Applying(q, newIds) =>
      ContextLoaded(db, q, newIds);
      match Outcome(db, q, newIds)
      case Ok(db') => db'
      case Err(_) => db
  }

  /** The catalog invariant is kept by every step. */
  lemma StepValid(db: Db, e: Event)
    requires Valid(db) && Legal(db, e)
    ensures Valid(Step(db, e))
  {
    match e
    case Editing(edit) =>
      if Admits(db, edit) { EffectValid(db, edit); }
    case Failing(source, code) =>
    case Applying(q, newIds) => ApplyStepValid(db, q, newIds);
  }

  lemma ApplyStepValid(db: Db, q: Request, newIds: map<Ref, Id>)
    requires Valid(db) && Resolved(q) && Unused(db, q, newIds)
    ensures Valid(Step(db, Applying(q, newIds)))
  {
    hide Outcome, Valid, Resolved, Unused, UniqueNames, LoadedFrom;
    ApplyStep(db, q, newIds);
    var db' := Step(db, Applying(q, newIds));
    if db' != db { OutcomeValid(db, q, newIds, db'); }
  }

  /** An apply either does nothing or is a successful one. */
  lemma ApplyStep(db: Db, q: Request, newIds: map<Ref, Id>)
    requires Valid(db) && Resolved(q) && Unused(db, q, newIds)
    ensures var db' := Step(db, Applying(q, newIds)); db' == db || AppliesTo(db, q, newIds, db')
  {
    ContextLoaded(db, q, newIds);
    hide Valid, Resolved, Unused, UniqueNames, LoadedFrom, Plannable, Changes, KeyClash, Applied;
  }

  /** One legal event takes one catalog to the next. */
  ghost predicate Follows(db: Db, e: Event, db': Db) {
    Valid(db) && Legal(db, e) && db' == Step(db, e)
  }

  /** A run: the states before, between and after a sequence of legal events. */
  ghost predicate Run(states: seq<Db>, events: seq<Event>) {
    && |states| == |events| + 1
    && Valid(states[0])
    && forall i :: 0 <= i < |events| ==> Follows(states[i], events[i], states[i + 1])
  }

  lemma FollowsValid(db: Db, e: Event, db': Db)
    requires Follows(db, e, db')
    ensures Valid(db')
  {
    StepValid(db, e);
  }

  lemma EmptyValid()
    ensures Valid(EMPTY)
  {
  }

  /** Every reachable catalog, constraint by constraint: ports are in range, tcp assets have no credential
      and ssh assets none that is missing; names are unique in each table, and so are public keys and
      fingerprints; grants join restricted keys to assets; every resource has one ownership row, which for
      a declared one names its type and name; and nothing else has one. */
  lemma RunConstraints(states: seq<Db>, events: seq<Event>, i: nat)
    requires Run(states, events) && i < |states|
    ensures var db := states[i];
      && (forall k :: k in db.rows && k.kind == Assets ==>
            var row := db.rows[k];
            && row.AssetRow? && 1 <= row.port <= 65535 && (row.protocol == Tcp ==> row.credential == None)
            && (row.credential.Some? ==> Key(Credentials, row.credential.value) in db.rows))
      && (forall k :: k in db.rows ==> (db.rows[k].KeyRow? <==> k.kind == AccessKeys) && (db.rows[k].CredentialRow? <==> k.kind == Credentials))
      && (forall k, j :: k in db.rows && j in db.rows && k != j && k.kind == j.kind ==> db.rows[k].name != db.rows[j].name)
      && (forall k, j :: k in db.rows && j in db.rows && k != j && db.rows[k].KeyRow? && db.rows[j].KeyRow? ==>
            db.rows[k].publicKey != db.rows[j].publicKey && db.rows[k].fingerprint != db.rows[j].fingerprint)
      && (forall g :: g in db.allow ==>
            && Key(AccessKeys, g.key) in db.rows && Key(Assets, g.asset) in db.rows
            && db.rows[Key(AccessKeys, g.key)].KeyRow? && db.rows[Key(AccessKeys, g.key)].mode == Restricted)
      && (forall k :: k in db.owners <==> k in db.rows)
      && (forall k :: k in db.owners && db.owners[k].Declarative? ==>
            db.owners[k].sourceKey.kind == k.kind && db.owners[k].sourceKey.name == db.rows[k].name)
  {
    RunValid(states, events, i);
    var db := states[i];
    forall k | k in db.rows ensures RowOk(k, db.rows[k]) && CredentialExists(db.rows, db.rows[k]) { }
    forall k, j | k in db.rows && j in db.rows && k != j ensures !Clash(k, db.rows[k], j, db.rows[j]) { }
  }

  /** Every state of a run meets every constraint. */
  lemma RunValid(states: seq<Db>, events: seq<Event>, i: nat)
    requires Run(states, events) && i < |states|
    ensures Valid(states[i])
  {
    hide Follows, Valid;
    if i > 0 { FollowsValid(states[i - 1], events[i - 1], states[i]); }
  }
}
