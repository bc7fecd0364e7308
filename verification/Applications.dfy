/** The state a committed apply installs, as a function of the state it was planned on. */
module Applications {
  import opened Wrappers
  import opened Names
  import opened Schema
  import opened Decisions

  /** The context was loaded from `db` in one piece. */
  ghost predicate LoadedFrom(c: Ctx, db: Db) {
    Valid(db) && UniqueNames(db) && c.existing == Load(db) && c.IdsDistinct() && c.DeclsOk()
  }

  function KeyOf(c: Ctx, r: Ref): Key {
    Key(r.kind, c.FinalId(r))
  }

  /** The upserts of an apply, by primary key. */
  ghost function Upserts(c: Ctx): map<Key, Upsert>
    requires c.IdsDistinct()
  {
    map r | r in c.decls && c.Writes(r) :: KeyOf(c, r) := c.UpsertOf(r)
  }

  ghost function Gone(c: Ctx): set<Key> {
    set r | r in c.existing && c.Deletes(r) :: KeyOf(c, r)
  }

  ghost function OrphanKeys(c: Ctx): set<Key> {
    set r | r in c.existing && c.Orphans(r) :: KeyOf(c, r)
  }

  /** An upsert leaves the columns it does not name: an asset keeps its tags. */
  function Merged(rows: map<Key, Row>, u: Upsert): Row {
    if u.Key() in rows && rows[u.Key()].AssetRow? && u.row.AssetRow?
    then u.row.(tags := rows[u.Key()].tags)
    else u.row
  }

  function OwnerOf(c: Ctx, u: Upsert, generation: nat): Owner {
    Declarative(c.source, u.ref, generation, u.hash, false)
  }

  function GrantsOf(u: Upsert): set<Grant> {
    set a | a in u.grants :: Grant(u.id, a)
  }

  /** The tables once the upserts with keys in `done` have run. */
  ghost function Stage(c: Ctx, db: Db, generation: nat, done: set<Key>): Db
    requires c.IdsDistinct() && done <= Upserts(c).Keys
  {
    var ups := Upserts(c);
    db.(rows := db.rows + map k | k in done :: Merged(db.rows, ups[k]),
        owners := db.owners + map k | k in done :: OwnerOf(c, ups[k], generation),
        allow := (set g | g in db.allow && Key(AccessKeys, g.key) !in done)
               + (set k, a | k in done && k.kind == AccessKeys && a in ups[k].grants :: Grant(k.id, a)))
  }

  function Marked(owners: map<Key, Owner>, orphans: set<Key>): map<Key, Owner> {
    map k | k in owners ::
      if k in orphans && owners[k].Declarative? then owners[k].(orphaned := true) else owners[k]
  }

  ghost function Applied(c: Ctx, db: Db, generation: nat, revision: nat): Db
    requires c.IdsDistinct()
  {
    var staged := Stage(c, db, generation, Upserts(c).Keys);
    Without(staged.(owners := Marked(staged.owners, OrphanKeys(c))), Gone(c))
      .(sources := db.sources[c.source := Source(generation, Some(revision), None)],
        revision := revision)
  }

  // ---------- Reading the loaded tables ----------

  lemma LoadedRow(c: Ctx, db: Db, k: Key)
    requires LoadedFrom(c, db) && k in db.rows
    ensures RefOf(k, db.rows[k]) in c.existing
    ensures c.existing[RefOf(k, db.rows[k])] == ExistingAt(db, k)
    ensures KeyOf(c, RefOf(k, db.rows[k])) == k
  {
  }

  lemma LoadedRef(c: Ctx, db: Db, r: Ref)
    requires LoadedFrom(c, db) && r in c.existing
    ensures KeyOf(c, r) in db.rows && RefOf(KeyOf(c, r), db.rows[KeyOf(c, r)]) == r
    ensures c.existing[r] == ExistingAt(db, KeyOf(c, r))
    ensures c.existing[r].owner == Some(db.owners[KeyOf(c, r)])
  {
  }

  lemma KeyOfInjective(c: Ctx, r: Ref, q: Ref)
    requires c.IdsDistinct() && KeyOf(c, r) == KeyOf(c, q)
    requires r in c.existing || r in c.newIds
    requires q in c.existing || q in c.newIds
    ensures r == q
  {
  }

  lemma CreatedIsNew(c: Ctx, db: Db, r: Ref)
    requires LoadedFrom(c, db) && r in c.decls && r !in c.existing
    ensures KeyOf(c, r) !in db.rows
  {
    hide Valid;
    if KeyOf(c, r) in db.rows {
      LoadedRow(c, db, KeyOf(c, r));
      KeyOfInjective(c, r, RefOf(KeyOf(c, r), db.rows[KeyOf(c, r)]));
    }
  }

  lemma UpsertAt(c: Ctx, k: Key)
    requires c.IdsDistinct() && c.DeclsOk() && k in Upserts(c)
    ensures c.Writes(Upserts(c)[k].ref) && Upserts(c)[k] == c.UpsertOf(Upserts(c)[k].ref)
    ensures k == KeyOf(c, Upserts(c)[k].ref) == Upserts(c)[k].Key()
    ensures RowOk(k, Upserts(c)[k].row) && Upserts(c)[k].row.name == Upserts(c)[k].ref.name
  {
    var u := Upserts(c)[k];
    assert SpecOk(u.ref, c.decls[u.ref].spec);
  }

  lemma UpsertFor(c: Ctx, r: Ref)
    requires c.IdsDistinct() && c.Writes(r)
    ensures KeyOf(c, r) in Upserts(c) && Upserts(c)[KeyOf(c, r)] == c.UpsertOf(r)
  {
  }

  lemma GoneAt(c: Ctx, r: Ref)
    requires c.IdsDistinct() && (r in c.existing || r in c.newIds)
    ensures KeyOf(c, r) in Gone(c) <==> c.Deletes(r)
    ensures KeyOf(c, r) in OrphanKeys(c) <==> c.Orphans(r)
    ensures KeyOf(c, r) in Upserts(c) <==> c.Writes(r)
  {
    if KeyOf(c, r) in Gone(c) {
      var d :| d in c.existing && c.Deletes(d) && KeyOf(c, d) == KeyOf(c, r);
      KeyOfInjective(c, r, d);
    }
    if KeyOf(c, r) in OrphanKeys(c) {
      var d :| d in c.existing && c.Orphans(d) && KeyOf(c, d) == KeyOf(c, r);
      KeyOfInjective(c, r, d);
    }
    if KeyOf(c, r) in Upserts(c) {
      var d :| d in c.decls && c.Writes(d) && KeyOf(c, d) == KeyOf(c, r);
      KeyOfInjective(c, r, d);
    }
  }

  // ---------- The installed state, resource by resource ----------

  lemma AppliedRow(c: Ctx, db: Db, generation: nat, revision: nat, k: Key)
    requires c.IdsDistinct()
    ensures var db' := Applied(c, db, generation, revision);
      && (k in db'.rows <==> (k in db.rows || k in Upserts(c)) && k !in Gone(c))
      && (k in db'.rows ==>
            db'.rows[k] == if k in Upserts(c) then Merged(db.rows, Upserts(c)[k]) else db.rows[k])
  {
  }

  lemma AppliedOwner(c: Ctx, db: Db, generation: nat, revision: nat, k: Key)
    requires c.IdsDistinct()
    ensures var db' := Applied(c, db, generation, revision);
      && (k in db'.owners <==> (k in db.owners || k in Upserts(c)) && k !in Gone(c))
      && (k in db'.owners ==>
            var owner := if k in Upserts(c) then OwnerOf(c, Upserts(c)[k], generation) else db.owners[k];
            db'.owners[k] == if k in OrphanKeys(c) && owner.Declarative? then owner.(orphaned := true) else owner)
  {
  }

  /** After an apply the names taken are exactly the surviving ones, behind their final ids:
      the planner's namespaces, however built, are those of the committed state. */
  lemma AppliedNames(c: Ctx, db: Db, generation: nat, revision: nat)
    requires LoadedFrom(c, db)
    ensures UniqueNames(Applied(c, db, generation, revision))
    ensures forall r :: r in Load(Applied(c, db, generation, revision)) <==> c.Survives(r)
    ensures forall r :: c.Survives(r) ==> Load(Applied(c, db, generation, revision))[r].id == c.FinalId(r)
  {
    hide Applied, Valid;
    var db' := Applied(c, db, generation, revision);
    forall k | k in db'.rows
      ensures var r := RefOf(k, db'.rows[k]); c.Survives(r) && KeyOf(c, r) == k
    {
      AppliedRowName(c, db, generation, revision, k);
    }
    forall r | c.Survives(r) ensures KeyOf(c, r) in db'.rows && RefOf(KeyOf(c, r), db'.rows[KeyOf(c, r)]) == r {
      AppliedAt(c, db, generation, revision, r);
    }
  }

  lemma AppliedRowName(c: Ctx, db: Db, generation: nat, revision: nat, k: Key)
    requires LoadedFrom(c, db) && k in Applied(c, db, generation, revision).rows
    ensures var r := RefOf(k, Applied(c, db, generation, revision).rows[k]); c.Survives(r) && KeyOf(c, r) == k
  {
    hide Applied, Valid, UniqueNames, Upserts, Gone, OrphanKeys, Load;
    AppliedRow(c, db, generation, revision, k);
    if k in Upserts(c) {
      UpsertAt(c, k);
      GoneAt(c, Upserts(c)[k].ref);
    } else {
      LoadedRow(c, db, k);
      GoneAt(c, RefOf(k, db.rows[k]));
    }
  }

  /** What an apply leaves under one surviving name. */
  lemma AppliedAt(c: Ctx, db: Db, generation: nat, revision: nat, r: Ref)
    requires LoadedFrom(c, db) && c.Survives(r)
    ensures var db' := Applied(c, db, generation, revision); var k := KeyOf(c, r);
      && k in db'.rows && k in db'.owners && RefOf(k, db'.rows[k]) == r
      && (c.Writes(r) ==>
            && db'.rows[k] == Merged(db.rows, c.UpsertOf(r))
            && db'.owners[k] == OwnerOf(c, c.UpsertOf(r), generation))
      && (!c.Writes(r) ==>
            && k in db.rows && db'.rows[k] == db.rows[k]
            && db'.owners[k] == if c.Orphans(r) then db.owners[k].(orphaned := true) else db.owners[k])
  {
    hide Applied, Valid, UniqueNames, Upserts, Gone, OrphanKeys, Load;
    AppliedRow(c, db, generation, revision, KeyOf(c, r));
    AppliedOwner(c, db, generation, revision, KeyOf(c, r));
    GoneAt(c, r);
    if c.Writes(r) {
      UpsertFor(c, r);
      UpsertAt(c, KeyOf(c, r));
    } else {
      LoadedRef(c, db, r);
    }
  }

  /** What an apply does to one grant. */
  lemma AppliedGrant(c: Ctx, db: Db, generation: nat, revision: nat, g: Grant)
    requires c.IdsDistinct()
    ensures var k := Key(AccessKeys, g.key);
      g in Applied(c, db, generation, revision).allow <==>
        && k !in Gone(c) && Key(Assets, g.asset) !in Gone(c)
        && if k in Upserts(c) then g.asset in Upserts(c)[k].grants else g in db.allow
  {
    var staged := Stage(c, db, generation, Upserts(c).Keys);
    var k := Key(AccessKeys, g.key);
    assert g in staged.allow <==> if k in Upserts(c) then g.asset in Upserts(c)[k].grants else g in db.allow;
  }
}
