/** Inputs on which stronger claims about applies fail. */
module Counterexamples {
  import opened Wrappers
  import opened Names
  import opened Schema
  import opened Decisions
  import opened LocalEdits
  import opened AtomicApply
  import opened Applications
  import opened AppliedConstraints
  import opened Planner
  import opened Histories
  import opened Convergence
  import opened Drift

  // ---------- Drift: a manifest that leaned on the catalog, applied once, spoils a later one ----------

  const ASSET := Ref(Assets, "x")
  const CREDENTIAL := Ref(Credentials, "c")
  const ASSET_SPEC: Spec := AssetSpec(Ssh, "h", 22, None, None, Some("c"))
  const CREDENTIAL_SPEC: Spec := CredentialSpec(Password, "u", Some("p"), None, None)

  const ASSET_KEY := Key(Assets, Id("2"))
  const CREDENTIAL_KEY := Key(Credentials, Id("1"))

  function Local1(name: Name): NewCredential {
    NewCredential(name, "u", PasswordLogin, Some(Envelope(Id("1"), PasswordField, "p")), None, None)
  }

  /** The leaning manifest: the asset only, its credential left to the catalog. */
  function Leaning(source: SourceId): Request {
    Request(source, map[ASSET := Present(ASSET_SPEC)], false)
  }

  /** The self-contained one, applied later with pruning: the same asset, and its credential. */
  function Standing(source: SourceId): Request {
    Request(source, map[ASSET := Present(ASSET_SPEC), CREDENTIAL := Present(CREDENTIAL_SPEC)], true)
  }

  const LATER_IDS := map[ASSET := Id("3"), CREDENTIAL := Id("4")]

  const WITH_CREDENTIAL := Db(map[CREDENTIAL_KEY := CredentialRowFor(Local1("c"))], {}, map[CREDENTIAL_KEY := Local], map[], 1)

  /** The catalog with the leaning asset, its credential named `name`. */
  function WithAsset(source: SourceId, name: Name, revision: nat): Db {
    Db(map[CREDENTIAL_KEY := CredentialRowFor(Local1(name)),
           ASSET_KEY := AssetRow("x", Ssh, "h", 22, None, None, None, Some(Id("1")))],
       {},
       map[CREDENTIAL_KEY := Local, ASSET_KEY := Declarative(source, ASSET, 1, HashOf(ASSET, ASSET_SPEC), false)],
       map[source := Source(1, Some(2), None)], revision)
  }

  lemma AddsCredential()
    ensures Follows(EMPTY, Editing(AddCredential(Id("1"), Local1("c"))), WITH_CREDENTIAL)
  {
  }

  lemma WithCredentialValid()
    ensures Valid(WITH_CREDENTIAL) && UniqueNames(WITH_CREDENTIAL)
    ensures Load(WITH_CREDENTIAL) == map[CREDENTIAL := Existing(Id("1"), Some(Local), None)]
  {
    assert RefOf(CREDENTIAL_KEY, WITH_CREDENTIAL.rows[CREDENTIAL_KEY]) == CREDENTIAL;
  }

  lemma WithAssetValid(source: SourceId, name: Name, revision: nat)
    ensures Valid(WithAsset(source, name, revision)) && UniqueNames(WithAsset(source, name, revision))
    ensures Load(WithAsset(source, name, revision)) ==
      map[Ref(Credentials, name) := Existing(Id("1"), Some(Local), None),
          ASSET := Existing(Id("2"), Some(Declarative(source, ASSET, 1, HashOf(ASSET, ASSET_SPEC), false)), Some(Id("1")))]
  {
    var db := WithAsset(source, name, revision);
    WithAssetMeets(source, name, revision);
    ValidUniqueNames(db);
    hide Valid, UniqueNames;
    assert RefOf(CREDENTIAL_KEY, db.rows[CREDENTIAL_KEY]) == Ref(Credentials, name);
    assert RefOf(ASSET_KEY, db.rows[ASSET_KEY]) == ASSET;
    assert ExistingAt(db, CREDENTIAL_KEY) == Existing(Id("1"), Some(Local), None);
  }

  lemma WithAssetMeets(source: SourceId, name: Name, revision: nat)
    ensures Valid(WithAsset(source, name, revision))
  {
    var db := WithAsset(source, name, revision);
    assert RowsValid(db.rows);
    assert OwnersValid(db.rows, db.owners);
  }

  /** A plan without obstacles and access keys is applied. */
  lemma KeylessApplies(db: Db, q: Request, newIds: map<Ref, Id>)
    requires Valid(db) && Resolved(q) && Unused(db, q, newIds) && UniqueNames(db)
    requires LoadedFrom(ContextOf(db, q, newIds), db)
    requires var c := ContextOf(db, q, newIds);
      c.AllRefsKnown() && c.AllOwnershipOk() && !c.InUse() && Changes(c) && forall r :: r in q.decls ==> r.kind != AccessKeys
    ensures !KeyClash(ContextOf(db, q, newIds), db)
    ensures var db' := Applied(ContextOf(db, q, newIds), db, GenerationOf(db, q.source) + 1, db.revision + 1);
      AppliesTo(db, q, newIds, db') && Follows(db, Applying(q, newIds), db')
  {
    hide Valid, Resolved, Unused, UniqueNames, LoadedFrom, Applied, Load, Ctx.AllRefsKnown, Ctx.AllOwnershipOk, Ctx.InUse, Changes;
    var c := ContextOf(db, q, newIds);
    LoadedParts(c, db);
    forall k | k in Upserts(c) ensures Upserts(c)[k].ref.kind != AccessKeys { UpsertAt(c, k); }
  }

  lemma LeaningPlans(source: SourceId)
    ensures var q, newIds := Leaning(source), map[ASSET := Id("2")];
      && Resolved(q) && Unused(WITH_CREDENTIAL, q, newIds) && UniqueNames(WITH_CREDENTIAL)
      && LoadedFrom(ContextOf(WITH_CREDENTIAL, q, newIds), WITH_CREDENTIAL)
      && var c := ContextOf(WITH_CREDENTIAL, q, newIds);
      && c.AllRefsKnown() && c.AllOwnershipOk() && !c.InUse() && Changes(c)
      && c.Writes(ASSET) && c.UpsertOf(ASSET) == Upsert(ASSET, Id("2"), HashOf(ASSET, ASSET_SPEC),
           AssetRow("x", Ssh, "h", 22, None, None, None, Some(Id("1"))), {})
      && forall r :: !c.Deletes(r) && !c.Orphans(r)
  {
    WithCredentialValid();
    hide Valid, UniqueNames, Load;
    var q, newIds := Leaning(source), map[ASSET := Id("2")];
    ContextLoaded(WITH_CREDENTIAL, q, newIds);
    var c := ContextOf(WITH_CREDENTIAL, q, newIds);
    assert c.Survives(CREDENTIAL) && c.FinalId(CREDENTIAL) == Id("1");
    assert c.Covered(ASSET) && c.ActionOf(ASSET) == Created;
  }

  lemma EditFollows(db: Db, e: Edit)
    requires Valid(db) && Admits(db, e) && CallerOk(e)
    ensures Follows(db, Editing(e), Effect(db, e))
  {
    hide Valid, Admits, Effect;
  }

  lemma OneUpsert(c: Ctx, r: Ref)
    requires c.IdsDistinct() && c.Writes(r) && r in c.decls && c.decls.Keys == {r}
    requires forall q :: !c.Deletes(q) && !c.Orphans(q)
    ensures Upserts(c) == map[KeyOf(c, r) := c.UpsertOf(r)] && Gone(c) == {} && OrphanKeys(c) == {}
  {
    hide Ctx.IdsDistinct, Ctx.Writes, Ctx.UpsertOf, Ctx.Deletes, Ctx.Orphans;
  }

  lemma LeaningInstalls(source: SourceId)
    ensures UniqueNames(WITH_CREDENTIAL)
    ensures var c := ContextOf(WITH_CREDENTIAL, Leaning(source), map[ASSET := Id("2")]);
      c.IdsDistinct() && Applied(c, WITH_CREDENTIAL, 1, 2) == WithAsset(source, "c", 2)
  {
    hide Valid, UniqueNames, Load, Resolved, Unused, Ctx.IdsDistinct, Ctx.UpsertOf, Ctx.Writes, Ctx.AllRefsKnown,
         Ctx.AllOwnershipOk, Ctx.InUse, Changes, Ctx.Deletes, Ctx.Orphans, Applied, Upserts, Gone, OrphanKeys;
    LeaningPlans(source);
    var c := ContextOf(WITH_CREDENTIAL, Leaning(source), map[ASSET := Id("2")]);
    LoadedParts(c, WITH_CREDENTIAL);
    LeaningKey(source);
    OneUpsert(c, ASSET);
    var db' := Applied(c, WITH_CREDENTIAL, 1, 2);
    forall k ensures k in db'.rows <==> k in WithAsset(source, "c", 2).rows
             ensures k in db'.rows ==> db'.rows[k] == WithAsset(source, "c", 2).rows[k] {
      AppliedRow(c, WITH_CREDENTIAL, 1, 2, k);
    }
    forall k ensures k in db'.owners <==> k in WithAsset(source, "c", 2).owners
             ensures k in db'.owners ==> db'.owners[k] == WithAsset(source, "c", 2).owners[k] {
      AppliedOwner(c, WITH_CREDENTIAL, 1, 2, k);
    }
    forall g ensures g !in db'.allow { AppliedGrant(c, WITH_CREDENTIAL, 1, 2, g); }
    SourcesAfter(c, WITH_CREDENTIAL, 1, 2);
    SameTables(db', WithAsset(source, "c", 2));
  }

  lemma SameTables(a: Db, b: Db)
    requires forall k :: k in a.rows <==> k in b.rows
    requires forall k :: k in a.rows ==> a.rows[k] == b.rows[k]
    requires forall k :: k in a.owners <==> k in b.owners
    requires forall k :: k in a.owners ==> a.owners[k] == b.owners[k]
    requires (forall g :: g !in a.allow) && b.allow == {} && a.sources == b.sources && a.revision == b.revision
    ensures a == b
  {
    assert a.rows == b.rows && a.owners == b.owners && a.allow == b.allow;
  }

  lemma LeaningKey(source: SourceId)
    ensures UniqueNames(WITH_CREDENTIAL)
    ensures KeyOf(ContextOf(WITH_CREDENTIAL, Leaning(source), map[ASSET := Id("2")]), ASSET) == ASSET_KEY
  {
    WithCredentialValid();
    hide UniqueNames, Load;
  }

  lemma LeaningApplies(source: SourceId)
    ensures Follows(WITH_CREDENTIAL, Applying(Leaning(source), map[ASSET := Id("2")]), WithAsset(source, "c", 2))
  {
    hide Valid, UniqueNames, Load, Resolved, Unused, LoadedFrom, Follows, AppliesTo, Ctx.UpsertOf, Ctx.Writes, Ctx.AllRefsKnown,
         Ctx.AllOwnershipOk, Ctx.InUse, Changes, Ctx.Deletes, Ctx.Orphans, Applied, ContextOf;
    LeaningPlans(source);
    WithCredentialValid();
    LeaningInstalls(source);
    KeylessApplies(WITH_CREDENTIAL, Leaning(source), map[ASSET := Id("2")]);
  }

  lemma RenamesCredential(source: SourceId)
    ensures Follows(WithAsset(source, "c", 2), Editing(UpdateCredential(Id("1"), Local1("c2"))), WithAsset(source, "c2", 3))
  {
    hide Valid, Follows;
    WithAssetValid(source, "c", 2);
    RenameAdmitted(source);
    EditFollows(WithAsset(source, "c", 2), UpdateCredential(Id("1"), Local1("c2")));
  }

  lemma RenameAdmitted(source: SourceId)
    ensures var db, e := WithAsset(source, "c", 2), UpdateCredential(Id("1"), Local1("c2"));
      Valid(db) && Admits(db, e) && Effect(db, e) == WithAsset(source, "c2", 3)
  {
    hide Valid, Admits;
    WithAssetValid(source, "c", 2);
    RenameUnclashed(source);
    var db, e := WithAsset(source, "c", 2), UpdateCredential(Id("1"), Local1("c2"));
    assert Effect(db, e).rows == WithAsset(source, "c2", 3).rows;
  }

  lemma RenameUnclashed(source: SourceId)
    ensures Admits(WithAsset(source, "c", 2), UpdateCredential(Id("1"), Local1("c2")))
  {
    hide HashOf;
  }

  /** The context of the later apply: the asset it declares is the source's own, at the same hash. */
  lemma StandingLoads(source: SourceId)
    ensures var db, q := WithAsset(source, "c2", 3), Standing(source);
      && Resolved(q) && Unused(db, q, LATER_IDS) && Valid(db) && UniqueNames(db)
      && LoadedFrom(ContextOf(db, q, LATER_IDS), db)
      && var c := ContextOf(db, q, LATER_IDS);
      && c.existing == map[Ref(Credentials, "c2") := Existing(Id("1"), Some(Local), None),
           ASSET := Existing(Id("2"), Some(Declarative(source, ASSET, 1, HashOf(ASSET, ASSET_SPEC), false)), Some(Id("1")))]
  {
    hide Valid, UniqueNames, Load, LoadedFrom;
    WithAssetValid(source, "c2", 3);
    ContextLoaded(WithAsset(source, "c2", 3), Standing(source), LATER_IDS);
  }

  lemma StandingPlans(c: Ctx, source: SourceId)
    requires c == Ctx(source, Standing(source).decls, true,
      map[Ref(Credentials, "c2") := Existing(Id("1"), Some(Local), None),
          ASSET := Existing(Id("2"), Some(Declarative(source, ASSET, 1, HashOf(ASSET, ASSET_SPEC), false)), Some(Id("1")))], LATER_IDS)
    ensures c.AllRefsKnown() && c.AllOwnershipOk() && !c.InUse() && Changes(c)
    ensures c.Declared(ASSET) && !c.Writes(ASSET) && KeyOf(c, ASSET) == ASSET_KEY
    ensures c.CredentialId(ASSET_SPEC) == Some(Id("4"))
  {
    assert c.Covered(CREDENTIAL) && c.ActionOf(CREDENTIAL) == Created;
    assert c.RefsKnown(ASSET) && c.RefsKnown(CREDENTIAL);
    assert forall r :: !c.Deletes(r);
  }

  /** The later apply skips the asset, which keeps the renamed credential's id. */
  lemma StandingSkips(source: SourceId)
    ensures var db, q := WithAsset(source, "c2", 3), Standing(source);
      && Resolved(q) && Unused(db, q, LATER_IDS) && Valid(db) && UniqueNames(db)
      && LoadedFrom(ContextOf(db, q, LATER_IDS), db)
      && var c := ContextOf(db, q, LATER_IDS);
      && c.AllRefsKnown() && c.AllOwnershipOk() && !c.InUse() && Changes(c)
      && !Stands(c, db, ASSET)
  {
    hide Valid, UniqueNames, Load, LoadedFrom, Resolved, Unused, Ctx.AllRefsKnown, Ctx.AllOwnershipOk, Ctx.InUse, Changes,
         Ctx.Writes, KeyOf, Ctx.CredentialId;
    StandingLoads(source);
    StandingPlans(ContextOf(WithAsset(source, "c2", 3), Standing(source), LATER_IDS), source);
  }

  lemma StandingSelfContained(source: SourceId)
    ensures SelfContained(Standing(source))
  {
    var decls := Standing(source).decls;
    assert RefsResolve(decls, false, {}, ASSET_SPEC) && RefsResolve(decls, false, {}, CREDENTIAL_SPEC);
  }

  /** A run from the empty catalog at whose end a self-contained pruning apply succeeds and a resource
      it declares is not stored as declared. */
  ghost predicate DriftsAt(states: seq<Db>, events: seq<Event>, q: Request, newIds: map<Ref, Id>, r: Ref) {
    && Run(states, events) && states[0] == EMPTY && |events| > 0
    && events[|events| - 1] == Applying(q, newIds) && q.prune && SelfContained(q)
    && AppliesTo(states[|events| - 1], q, newIds, states[|events|])
    && UniqueNames(states[|events|])
    && r in q.decls && q.decls[r].Present? && !StoredAsDeclared(states[|events|], r, q.decls[r].spec)
  }

  /** Convergence does fail, for every source, once it has applied a manifest that leaned on the
      catalog: a local credential is renamed after an asset was tied to it, and a later manifest
      declares a credential of the old name beside the unchanged asset. */
  lemma DisciplineIsNeeded(source: SourceId)
    ensures exists states, events, q, newIds, r :: DriftsAt(states, events, q, newIds, r) && q.source == source
  {
    hide Valid, UniqueNames, Follows, AppliesTo, SelfContained, StoredAsDeclared, Stands, Applied, Resolved, Unused, LoadedFrom,
         Ctx.AllRefsKnown, Ctx.AllOwnershipOk, Ctx.InUse, Changes, ContextOf, WithAsset;
    var db, q := WithAsset(source, "c2", 3), Standing(source);
    AddsCredential();
    LeaningApplies(source);
    RenamesCredential(source);
    var db' := StandingDrifts(source);
    StandingSelfContained(source);
    EmptyValid();
    var states := [EMPTY, WITH_CREDENTIAL, WithAsset(source, "c", 2), db, db'];
    var events := [Editing(AddCredential(Id("1"), Local1("c"))), Applying(Leaning(source), map[ASSET := Id("2")]),
                   Editing(UpdateCredential(Id("1"), Local1("c2"))), Applying(q, LATER_IDS)];
    assert Run(states, events);
    assert DriftsAt(states, events, q, LATER_IDS, ASSET);
  }

  lemma StandingDrifts(source: SourceId) returns (db': Db)
    ensures var db, q := WithAsset(source, "c2", 3), Standing(source);
      && AppliesTo(db, q, LATER_IDS, db') && Follows(db, Applying(q, LATER_IDS), db') && UniqueNames(db')
      && !StoredAsDeclared(db', ASSET, ASSET_SPEC)
  {
    hide Valid, UniqueNames, Follows, AppliesTo, StoredAsDeclared, Stands, Applied, Resolved, Unused, LoadedFrom,
         Ctx.AllRefsKnown, Ctx.AllOwnershipOk, Ctx.InUse, Changes, WithAsset, Load;
    var db, q := WithAsset(source, "c2", 3), Standing(source);
    StandingSkips(source);
    LoadedParts(ContextOf(db, q, LATER_IDS), db);
    KeylessApplies(db, q, LATER_IDS);
    db' := Applied(ContextOf(db, q, LATER_IDS), db, GenerationOf(db, source) + 1, db.revision + 1);
    StoredExactly(db, q, LATER_IDS, db', ASSET);
  }

  // ---------- Clash: an accepted plan that fails when it runs ----------

  /** Giving an existing public key a new name always fails, whether or not the old name is to be
      deleted by the same plan. */
  lemma MovedKeyClashes(c: Ctx, db: Db, r: Ref, j: Key)
    requires c.IdsDistinct() && c.Declared(r) && r !in c.existing && r.kind == AccessKeys
    requires j in db.rows && j.kind == AccessKeys && j != KeyOf(c, r) && j !in Upserts(c)
    requires SameKey(c.UpsertOf(r).row, db.rows[j])
    ensures KeyClash(c, db)
  {
    hide Upserts, SameKey, Ctx.IdsDistinct;
    assert c.Writes(r);
    UpsertFor(c, r);
    assert ClashesWith(c, db, Upserts(c)[KeyOf(c, r)], j);
  }

  const OLD_NAME := Ref(AccessKeys, "old")
  const NEW_NAME := Ref(AccessKeys, "new")
  const PUBLIC_KEY := PublicKey("ssh-ed25519", "b")
  const KEY_SPEC: Spec := AccessSpec(PUBLIC_KEY, true, None)

  function WithKey(source: SourceId): Db {
    Db(map[Key(AccessKeys, Id("1")) := KeyRow("old", PUBLIC_KEY, Sha256("b"), true, All)], {},
       map[Key(AccessKeys, Id("1")) := Declarative(source, OLD_NAME, 1, HashOf(OLD_NAME, KEY_SPEC), false)],
       map[source := Source(1, Some(1), None)], 1)
  }

  /** The manifest with the access key renamed, pruning the old name. */
  function Renaming(source: SourceId): Request {
    Request(source, map[NEW_NAME := Present(KEY_SPEC)], true)
  }

  lemma WithKeyValid(source: SourceId)
    ensures Valid(WithKey(source)) && UniqueNames(WithKey(source))
    ensures Load(WithKey(source)) ==
      map[OLD_NAME := Existing(Id("1"), Some(Declarative(source, OLD_NAME, 1, HashOf(OLD_NAME, KEY_SPEC), false)), None)]
  {
    var db := WithKey(source);
    assert RefOf(Key(AccessKeys, Id("1")), db.rows[Key(AccessKeys, Id("1"))]) == OLD_NAME;
    ValidUniqueNames(db);
  }

  /** The plan is accepted and yet cannot be executed. */
  ghost predicate AcceptedYetFails(db: Db, q: Request, newIds: map<Ref, Id>) {
    && Valid(db) && Resolved(q) && Unused(db, q, newIds) && UniqueNames(db) && ContextOf(db, q, newIds).IdsDistinct()
    && Plannable(ContextOf(db, q, newIds)) && Outcome(db, q, newIds) == Err(ApplyFailed)
  }

  lemma RenamingFails(source: SourceId)
    ensures AcceptedYetFails(WithKey(source), Renaming(source), map[NEW_NAME := Id("2")])
  {
    var db, q, newIds := WithKey(source), Renaming(source), map[NEW_NAME := Id("2")];
    WithKeyValid(source);
    hide Valid, UniqueNames, Load, Upserts, KeyClash;
    ContextLoaded(db, q, newIds);
    var c := ContextOf(db, q, newIds);
    assert c.RefsKnown(NEW_NAME);
    assert !c.InUse();
    assert c.Covered(NEW_NAME) && c.ActionOf(NEW_NAME) == Created;
    OnlyNewUpserts(c);
    MovedKeyClashes(c, db, NEW_NAME, Key(AccessKeys, Id("1")));
  }

  lemma OnlyNewUpserts(c: Ctx)
    requires c.IdsDistinct() && c.decls.Keys == {NEW_NAME} && KeyOf(c, NEW_NAME) != Key(AccessKeys, Id("1"))
    ensures Key(AccessKeys, Id("1")) !in Upserts(c)
  {
  }
}
