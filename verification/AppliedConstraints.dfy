/** The state a committed apply installs meets every constraint of the schema. */
module AppliedConstraints {
  import opened Names
  import opened Schema
  import opened Decisions
  import opened Applications
  import opened Planner

  predicate SameKey(a: Row, b: Row) {
    a.KeyRow? && b.KeyRow? && (a.publicKey == b.publicKey || a.fingerprint == b.fingerprint)
  }

  /** The access key `j`, as it stands when upsert `u` runs, has the same public key. */
  ghost predicate ClashesWith(c: Ctx, db: Db, u: Upsert, j: Key)
    requires c.IdsDistinct()
  {
    && u.ref.kind == AccessKeys && j.kind == AccessKeys && j != u.Key()
    && if j in Upserts(c) && Earlier(Upserts(c)[j].ref, u.ref) then SameKey(u.row, Upserts(c)[j].row)
       else j in db.rows && SameKey(u.row, db.rows[j])
  }

  /** Upserts run before deletes and one by one, so a public key must be free at its turn. */
  ghost predicate KeyClash(c: Ctx, db: Db)
    requires c.IdsDistinct()
  {
    exists k, j :: k in Upserts(c) && ClashesWith(c, db, Upserts(c)[k], j)
  }

  lemma EarlierTotal(a: Ref, b: Ref)
    requires a != b
    ensures Earlier(a, b) || Earlier(b, a)
  {
    NameLessTotal(a.name, b.name);
  }

  lemma EarlierAsym(a: Ref, b: Ref)
    requires Earlier(a, b)
    ensures !Earlier(b, a) && a != b
  {
    NameLessIrreflexive(a.name);
    if a.kind == b.kind && NameLess(b.name, a.name) {
      NameLessTrans(a.name, b.name, a.name);
    }
  }

  /** The public key of an installed access key clashes with no other. */
  lemma DistinctKeys(c: Ctx, db: Db, generation: nat, revision: nat, j: Key, k: Key)
    requires LoadedFrom(c, db) && !KeyClash(c, db)
    requires j in Applied(c, db, generation, revision).rows && k in Applied(c, db, generation, revision).rows
    requires j != k && j.kind == k.kind == AccessKeys
    ensures var rows := Applied(c, db, generation, revision).rows; !SameKey(rows[j], rows[k])
  {
    hide Applied, Upserts, Gone;
    AppliedRow(c, db, generation, revision, j);
    AppliedRow(c, db, generation, revision, k);
    if j in Upserts(c) { UpsertAt(c, j); }
    if k in Upserts(c) { UpsertAt(c, k); }
    if j in Upserts(c) && k in Upserts(c) {
      EarlierTotal(Upserts(c)[j].ref, Upserts(c)[k].ref);
      assert !ClashesWith(c, db, Upserts(c)[j], k) && !ClashesWith(c, db, Upserts(c)[k], j);
    } else if j in Upserts(c) {
      assert !ClashesWith(c, db, Upserts(c)[j], k);
    } else if k in Upserts(c) {
      assert !ClashesWith(c, db, Upserts(c)[k], j);
    } else {
      assert !Clash(j, db.rows[j], k, db.rows[k]);
    }
  }

  lemma DistinctRows(c: Ctx, db: Db, generation: nat, revision: nat, j: Key, k: Key)
    requires LoadedFrom(c, db) && Plannable(c) && !KeyClash(c, db)
    requires j in Applied(c, db, generation, revision).rows && k in Applied(c, db, generation, revision).rows && j != k
    ensures var rows := Applied(c, db, generation, revision).rows; !Clash(j, rows[j], k, rows[k])
  {
    hide Applied, Upserts, Gone, Valid, KeyClash, Plannable;
    AppliedRowName(c, db, generation, revision, j);
    AppliedRowName(c, db, generation, revision, k);
    if j.kind == k.kind {
      CredentialsStay(c, db, generation, revision, j);
      CredentialsStay(c, db, generation, revision, k);
      if j.kind == AccessKeys { DistinctKeys(c, db, generation, revision, j, k); }
    }
  }

  /** A surviving resource is still there, under its final id. */
  lemma SurvivorStays(c: Ctx, db: Db, generation: nat, revision: nat, r: Ref)
    requires LoadedFrom(c, db) && c.Survives(r)
    ensures KeyOf(c, r) in Applied(c, db, generation, revision).rows
    ensures KeyOf(c, r) !in Gone(c)
  {
    AppliedAt(c, db, generation, revision, r);
    AppliedRow(c, db, generation, revision, KeyOf(c, r));
  }

  /** No asset is left with a credential that is gone, whether or not the plan touched it. */
  lemma CredentialsStay(c: Ctx, db: Db, generation: nat, revision: nat, k: Key)
    requires LoadedFrom(c, db) && Plannable(c)
    requires k in Applied(c, db, generation, revision).rows
    ensures var rows := Applied(c, db, generation, revision).rows;
      RowOk(k, rows[k]) && CredentialExists(rows, rows[k])
  {
    hide Applied, Upserts, Gone;
    AppliedRow(c, db, generation, revision, k);
    if k in Upserts(c) {
      UpsertAt(c, k);
      UpsertedCredentialStays(c, db, generation, revision, Upserts(c)[k].ref);
    } else {
      assert RowOk(k, db.rows[k]) && CredentialExists(db.rows, db.rows[k]);
      if db.rows[k].AssetRow? && db.rows[k].credential.Some? {
        KeptCredentialStays(c, db, generation, revision, k);
      }
    }
  }

  lemma UpsertedCredentialStays(c: Ctx, db: Db, generation: nat, revision: nat, r: Ref)
    requires LoadedFrom(c, db) && c.AllRefsKnown() && c.Writes(r)
    ensures CredentialExists(Applied(c, db, generation, revision).rows, c.UpsertOf(r).row)
  {
    hide Applied, LoadedFrom, Gone;
    assert c.RefsKnown(r);
    var spec := c.decls[r].spec;
    if spec.AssetSpec? && spec.credential.Some? {
      SurvivorStays(c, db, generation, revision, Ref(Credentials, spec.credential.value));
    }
  }

  lemma KeptCredentialStays(c: Ctx, db: Db, generation: nat, revision: nat, k: Key)
    requires LoadedFrom(c, db) && !c.InUse()
    requires k in db.rows && k !in Upserts(c) && k !in Gone(c)
    requires k.kind == Assets && db.rows[k].AssetRow? && db.rows[k].credential.Some?
    requires Key(Credentials, db.rows[k].credential.value) in db.rows
    ensures Key(Credentials, db.rows[k].credential.value) in Applied(c, db, generation, revision).rows
  {
    hide Applied, LoadedFrom, Gone, Upserts;
    var ck := Key(Credentials, db.rows[k].credential.value);
    var a, d := RefOf(k, db.rows[k]), RefOf(ck, db.rows[ck]);
    LoadedRow(c, db, k);
    LoadedRow(c, db, ck);
    assert c.IdsDistinct() by { LoadedParts(c, db); }
    GoneAt(c, a);
    assert c.Deletes(d) ==> c.Uses(a, d);
    SurvivorStays(c, db, generation, revision, d);
  }

  lemma LoadedParts(c: Ctx, db: Db)
    requires LoadedFrom(c, db)
    ensures c.IdsDistinct() && c.DeclsOk() && Valid(db) && UniqueNames(db)
  {
  }

  lemma GrantStays(c: Ctx, db: Db, generation: nat, revision: nat, g: Grant)
    requires LoadedFrom(c, db) && c.AllRefsKnown()
    requires g in Applied(c, db, generation, revision).allow
    ensures var rows := Applied(c, db, generation, revision).rows; var k := Key(AccessKeys, g.key);
      k in rows && Key(Assets, g.asset) in rows && rows[k].KeyRow? && rows[k].mode == Restricted
  {
    hide Applied, Upserts, Gone;
    var k := Key(AccessKeys, g.key);
    AppliedGrant(c, db, generation, revision, g);
    AppliedRow(c, db, generation, revision, k);
    AppliedRow(c, db, generation, revision, Key(Assets, g.asset));
    if k in Upserts(c) {
      UpsertAt(c, k);
      GrantedAssetStays(c, db, generation, revision, Upserts(c)[k].ref, g.asset);
    }
  }

  lemma GrantedAssetStays(c: Ctx, db: Db, generation: nat, revision: nat, r: Ref, asset: Id)
    requires LoadedFrom(c, db) && c.AllRefsKnown() && c.Writes(r) && asset in c.UpsertOf(r).grants
    ensures Key(Assets, asset) in Applied(c, db, generation, revision).rows
    ensures c.UpsertOf(r).row.KeyRow? && c.UpsertOf(r).row.mode == Restricted
  {
    hide Applied, LoadedFrom, Gone;
    assert c.RefsKnown(r);
    var n :| n in c.decls[r].spec.assets.value && c.FinalId(Ref(Assets, n)) == asset;
    SurvivorStays(c, db, generation, revision, Ref(Assets, n));
  }

  lemma OwnersMatchRows(c: Ctx, db: Db, generation: nat, revision: nat)
    requires c.IdsDistinct() && db.owners.Keys == db.rows.Keys
    ensures var db' := Applied(c, db, generation, revision); db'.owners.Keys == db'.rows.Keys
  {
    hide Upserts, Gone, OrphanKeys, Merged, OwnerOf;
  }

  lemma OwnersStay(c: Ctx, db: Db, generation: nat, revision: nat)
    requires LoadedFrom(c, db)
    ensures var db' := Applied(c, db, generation, revision); OwnersValid(db'.rows, db'.owners)
  {
    hide Applied, Upserts, Gone;
    OwnersMatchRows(c, db, generation, revision);
    var db' := Applied(c, db, generation, revision);
    forall k | k in db'.rows && db'.owners[k].Declarative? ensures db'.owners[k].sourceKey == RefOf(k, db'.rows[k]) {
      AppliedRowName(c, db, generation, revision, k);
      AppliedAt(c, db, generation, revision, RefOf(k, db'.rows[k]));
    }
  }

  lemma PlannableParts(c: Ctx)
    requires Plannable(c)
    ensures c.AllRefsKnown() && c.AllOwnershipOk() && !c.InUse()
  {
  }

  /** Every accepted plan that meets free public keys ends in a valid catalog. */
  lemma AppliedValid(c: Ctx, db: Db, generation: nat, revision: nat)
    requires LoadedFrom(c, db) && Plannable(c) && !KeyClash(c, db)
    ensures Valid(Applied(c, db, generation, revision))
  {
    hide Applied, Upserts, LoadedFrom, KeyClash, Plannable;
    LoadedParts(c, db);
    var db' := Applied(c, db, generation, revision);
    forall j, k | j in db'.rows && k in db'.rows && j != k ensures !Clash(j, db'.rows[j], k, db'.rows[k]) {
      DistinctRows(c, db, generation, revision, j, k);
    }
    forall k | k in db'.rows ensures RowOk(k, db'.rows[k]) && CredentialExists(db'.rows, db'.rows[k]) {
      CredentialsStay(c, db, generation, revision, k);
    }
    forall g | g in db'.allow
      ensures var k := Key(AccessKeys, g.key);
        k in db'.rows && Key(Assets, g.asset) in db'.rows && db'.rows[k].KeyRow? && db'.rows[k].mode == Restricted
    {
      assert c.AllRefsKnown() by { PlannableParts(c); }
      GrantStays(c, db, generation, revision, g);
    }
    OwnersStay(c, db, generation, revision);
  }
}
