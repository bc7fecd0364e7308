/** A restricted access key never regains what it was not given. */
module NoResurrection {
  import opened Names
  import opened Schema
  import opened Decisions
  import opened LocalEdits
  import opened AtomicApply
  import opened Applications
  import opened AppliedConstraints
  import opened Planner
  import opened Histories

  /** The assets an access key is granted. */
  ghost function Granted(db: Db, key: Id): set<Id> {
    set g | g in db.allow && g.key == key :: g.asset
  }

  /** The event sets the access of the key itself. */
  ghost predicate Regrants(db: Db, e: Event, key: Id) {
    match e
    case Editing(edit) => (edit.AddKey? || edit.SetAccess?) && edit.id == key
    case Failing(_, _) => false
    case Applying(q, newIds) =>
      UniqueNames(db) && ContextOf(db, q, newIds).IdsDistinct() && Key(AccessKeys, key) in Upserts(ContextOf(db, q, newIds))
  }

  /** The key is restricted, or gone. */
  predicate Confined(db: Db, key: Id) {
    var k := Key(AccessKeys, key);
    k in db.rows && db.rows[k].KeyRow? ==> db.rows[k].mode == Restricted
  }

  lemma EditConfines(db: Db, e: Edit, key: Id)
    requires Valid(db) && Admits(db, e) && Confined(db, key) && !Regrants(db, Editing(e), key)
    ensures Confined(Effect(db, e), key) && Granted(Effect(db, e), key) <= Granted(db, key)
  {
    hide Clash, GrantsValid, Unclashed, AssetRowFor, CredentialRowFor, MaterialOk, AssetOk, Writable;
  }

  lemma ApplyConfines(c: Ctx, db: Db, generation: nat, revision: nat, key: Id)
    requires c.IdsDistinct() && Key(AccessKeys, key) !in Upserts(c) && Confined(db, key)
    ensures Confined(Applied(c, db, generation, revision), key)
    ensures Granted(Applied(c, db, generation, revision), key) <= Granted(db, key)
  {
    hide Applied, Upserts, Gone;
    AppliedRow(c, db, generation, revision, Key(AccessKeys, key));
    forall a | a in Granted(Applied(c, db, generation, revision), key) ensures a in Granted(db, key) {
      AppliedGrant(c, db, generation, revision, Grant(key, a));
      assert Grant(key, a) in db.allow;
    }
  }

  lemma StepConfines(db: Db, e: Event, db': Db, key: Id)
    requires Follows(db, e, db') && Confined(db, key) && !Regrants(db, e, key)
    ensures Confined(db', key) && Granted(db', key) <= Granted(db, key)
  {
    match e
    case Editing(edit) =>
      if Admits(db, edit) { EditConfines(db, edit, key); }
    case Failing(source, code) =>
    case Applying(q, newIds) =>
      hide Valid, Resolved, Unused, UniqueNames, LoadedFrom, Plannable, Changes, KeyClash, Applied, Upserts;
      ApplyStep(db, q, newIds);
      if db' != db {
        var c := ContextOf(db, q, newIds);
        LoadedParts(c, db);
        ApplyConfines(c, db, GenerationOf(db, q.source) + 1, db.revision + 1, key);
      }
  }

  /** While nothing sets a restricted key's own access, no run enlarges what it is granted. */
  lemma {:induction false} RunConfines(states: seq<Db>, events: seq<Event>, i: nat, j: nat, key: Id)
    requires Run(states, events) && i <= j < |states| && Confined(states[i], key)
    requires forall n :: i <= n < j ==> !Regrants(states[n], events[n], key)
    ensures Confined(states[j], key) && Granted(states[j], key) <= Granted(states[i], key)
    decreases j - i
  {
    hide Follows, Valid, Confined, Granted, Regrants;
    if i < j {
      RunConfines(states, events, i, j - 1, key);
      StepConfines(states[j - 1], events[j - 1], states[j], key);
    }
  }

  /** An asset that was not there when the key was last given access, such as one deleted and made
      again under its old name, stays out of reach. */
  lemma RecreatedStaysOut(states: seq<Db>, events: seq<Event>, i: nat, j: nat, key: Id, asset: Id)
    requires Run(states, events) && i <= j < |states| && Confined(states[i], key)
    requires forall n :: i <= n < j ==> !Regrants(states[n], events[n], key)
    requires Key(Assets, asset) !in states[i].rows
    ensures Grant(key, asset) !in states[j].allow
  {
    hide Follows, Confined, Regrants, RowsValid, OwnersValid;
    RunConfines(states, events, i, j, key);
    RunValid(states, events, i);
    assert asset !in Granted(states[i], key);
  }
}
