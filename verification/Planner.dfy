/** How the planner arrives at its decisions, table by table. */
module Planner {
  import opened Wrappers
  import opened Names
  import opened Schema
  import opened Decisions

  /** A reference is declared present, or known to the catalog and not declared at all. */
  predicate Resolves(decls: map<Ref, Decl>, allowDatabase: bool, database: set<Ref>, r: Ref) {
    if r in decls then decls[r].Present? else allowDatabase && r in database
  }

  predicate RefsResolve(decls: map<Ref, Decl>, allowDatabase: bool, database: set<Ref>, spec: Spec) {
    && (spec.AssetSpec? && spec.credential.Some? ==>
          Resolves(decls, allowDatabase, database, Ref(Credentials, spec.credential.value)))
    && (spec.AccessSpec? && spec.assets.Some? ==>
          forall n | n in spec.assets.value :: Resolves(decls, allowDatabase, database, Ref(Assets, n)))
  }

  predicate AllResolve(decls: map<Ref, Decl>, allowDatabase: bool, database: set<Ref>) {
    forall r | r in decls :: decls[r].Present? ==> RefsResolve(decls, allowDatabase, database, decls[r].spec)
  }

  method ValidateReferences(decls: map<Ref, Decl>, allowDatabase: bool, database: set<Ref>) returns (ok: bool)
    ensures ok <==> AllResolve(decls, allowDatabase, database)
  {
    var present := set r | r in decls && decls[r].Present?;
    var todo := decls.Keys;
    while todo != {}
      invariant todo <= decls.Keys
      invariant forall r :: r in decls.Keys - todo && decls[r].Present? ==>
        RefsResolve(decls, allowDatabase, database, decls[r].spec)
    {
      var r :| r in todo;
      todo := todo - {r};
      if decls[r].Present? {
        match decls[r].spec
        case CredentialSpec(_, _, _, _, _) =>
        case AssetSpec(_, _, _, _, _, credential) =>
          if credential.Some? {
            var named := Ref(Credentials, credential.value);
            var known := named in present || (allowDatabase && named in database);
            if !known || (named in decls && decls[named].Absent?) { return false; }
          }
        case AccessSpec(_, _, assets) =>
          if assets.Some? {
            var names := assets.value;
            while names != {}
              invariant names <= assets.value
              invariant forall n :: n in assets.value - names ==> Resolves(decls, allowDatabase, database, Ref(Assets, n))
            {
              var n :| n in names;
              var named := Ref(Assets, n);
              var known := named in present || (allowDatabase && named in database);
              if !known || (named in decls && decls[named].Absent?) { return false; }
              names := names - {n};
            }
          }
      }
    }
    return true;
  }

  /** The names taken after the apply: those loaded, less the absent, plus the present, less the
      pruned. */
  method FinalNames(c: Ctx, kind: Kind) returns (names: set<Ref>)
    ensures forall r :: r in names <==> r.kind == kind && c.Survives(r)
  {
    var loaded := set r | r in c.existing && r.kind == kind;
    var declared := set r | r in c.decls && r.kind == kind;
    names := loaded;
    var todo := declared;
    while todo != {}
      invariant todo <= declared
      invariant forall r :: r in declared - todo ==> (r in names <==> c.Declared(r))
      invariant forall r :: r !in declared - todo ==> (r in names <==> r in loaded)
    {
      var r :| r in todo;
      names := if c.decls[r].Present? then names + {r} else names - {r};
      todo := todo - {r};
    }
    if c.prune {
      todo := loaded;
      while todo != {}
        invariant todo <= loaded
        invariant forall r :: r in declared ==> (r in names <==> c.Declared(r))
        invariant forall r :: r !in declared ==> (r in names <==> r in loaded && (r in todo || !c.Owned(r)))
      {
        var r :| r in todo;
        if c.Owned(r) && r !in c.decls { names := names - {r}; }
        todo := todo - {r};
      }
    }
  }

  /** The ids behind the surviving names of one kind. */
  ghost predicate Namespace(c: Ctx, kind: Kind, ids: map<Ref, Id>) {
    && (forall r :: r in ids <==> r.kind == kind && c.Survives(r))
    && (forall r :: r in ids ==> ids[r] == c.FinalId(r))
  }

  /** The kind whose resources a kind refers to. */
  function ReferencedBy(kind: Kind): Kind {
    match kind
    case Credentials => Credentials
    case Assets => Credentials
    case AccessKeys => Assets
  }

  /** Plans one declared resource. `known` resolves the names it may refer to. */
  method PlanDeclared(c: Ctx, r: Ref, known: map<Ref, Id>, plan: Plan) returns (result: Result<Plan, ErrorCode>)
    requires r in c.decls && r in c.newIds && c.DeclsOk() && c.RefsKnown(r)
    requires r.kind == Credentials || Namespace(c, ReferencedBy(r.kind), known)
    ensures result.Ok? <==> c.OwnershipOk(r)
    ensures result.Err? ==> result.error == OwnershipConflict
    ensures result.Ok? ==> result.value == c.Extend(plan, r)
  {
    match c.decls[r]
    case Absent =>
      if r in c.existing {
        if !c.Owned(r) { return Err(OwnershipConflict); }
        return Ok(plan.(deletes := plan.deletes + [c.TargetOf(r)], changes := plan.changes + [Change(r, Deleted)]));
      }
      return Ok(plan.(changes := plan.changes + [Change(r, Unchanged)]));
    case Present(spec) =>
      assert SpecOk(r, spec);
      var credential := None;
      if spec.AssetSpec? && spec.credential.Some? {
        // Validated references leave nothing unknown here.
        credential := Some(known[Ref(Credentials, spec.credential.value)]);
      }
      var grants := {};
      if spec.AccessSpec? && spec.assets.Some? {
        assert forall n :: n in spec.assets.value ==> Ref(Assets, n) in known;
        grants := set n | n in spec.assets.value :: known[Ref(Assets, n)];
      }
      assert credential == c.CredentialId(spec) && grants == c.GrantedIds(spec);
      var hash := HashOf(r, spec);
      var id, action;
      if r !in c.existing {
        id, action := c.newIds[r], Created;
      } else {
        if !c.Owned(r) { return Err(OwnershipConflict); }
        var owner := c.existing[r].owner.value;
        id, action := c.existing[r].id, if owner.hash == hash && !owner.orphaned then Unchanged else Updated;
      }
      var planned := plan.(changes := plan.changes + [Change(r, action)]);
      if action != Unchanged {
        planned := planned.(upserts := planned.upserts + [Upsert(r, id, hash, Ctx.RowOf(r, id, spec, credential), grants)]);
      }
      return Ok(planned);
  }

  /** The target is a resource of the source that the manifest does not mention. */
  predicate Missing(c: Ctx, kind: Kind, t: Target) {
    t.ref.kind == kind && t.ref !in c.decls && c.Owned(t.ref) && t == c.TargetOf(t.ref)
  }

  /** Plans the source's resources of one kind that the manifest does not mention. */
  method PlanMissing(c: Ctx, kind: Kind, plan: Plan, ghost done: set<Ref>) returns (p: Plan, ghost all: set<Ref>)
    requires c.Decides(plan, done)
    requires forall r :: r in done ==> r.kind != kind || r in c.decls
    ensures forall r :: r in all <==> r in done || (r.kind == kind && r !in c.decls && c.Owned(r))
    ensures c.Decides(p, all)
    ensures p.upserts == plan.upserts
    ensures forall t: Target :: t in p.deletes <==> t in plan.deletes || (c.prune && Missing(c, kind, t))
    ensures forall t: Target :: t in p.orphans <==>
      t in plan.orphans || (!c.prune && Missing(c, kind, t) && !c.existing[t.ref].owner.value.orphaned)
  {
    p, all := plan, done;
    var loaded := set r | r in c.existing && r.kind == kind;
    var todo := loaded;
    while todo != {}
      invariant todo <= loaded
      invariant forall r :: r in all <==> r in done || (r in loaded - todo && r !in c.decls && c.Owned(r))
      invariant c.Decides(p, all) && p.upserts == plan.upserts
    {
      var r := Least(todo);
      todo := todo - {r};
      if c.Owned(r) && r !in c.decls {
        c.ExtendDecides(p, r, all);
        ghost var extended := c.Extend(p, r);
        if c.prune {
          p := p.(deletes := p.deletes + [c.TargetOf(r)], changes := p.changes + [Change(r, Deleted)]);
        } else if !c.existing[r].owner.value.orphaned {
          p := p.(orphans := p.orphans + [c.TargetOf(r)], changes := p.changes + [Change(r, Orphaned)]);
        } else {
          p := p.(changes := p.changes + [Change(r, Unchanged)]);
        }
        assert p == extended;
        all := all + {r};
      }
    }
  }

  ghost predicate OwnershipOkFor(c: Ctx, kind: Kind) {
    forall r :: r in c.decls && r.kind == kind ==> c.OwnershipOk(r)
  }

  /** Adds one declared resource to a plan that has decided only earlier ones. */
  method PlanNext(c: Ctx, r: Ref, known: map<Ref, Id>, plan: Plan, ghost done: set<Ref>)
    returns (result: Result<Plan, ErrorCode>)
    requires r in c.decls && r in c.newIds && c.DeclsOk() && c.RefsKnown(r)
    requires r.kind == Credentials || Namespace(c, ReferencedBy(r.kind), known)
    requires c.Decides(plan, done) && r !in done
    requires forall q :: q in done ==> Earlier(q, r)
    ensures result.Ok? <==> c.OwnershipOk(r)
    ensures result.Err? ==> result.error == OwnershipConflict
    ensures result.Ok? ==> c.Decides(result.value, done + {r})
  {
    result := PlanDeclared(c, r, known, plan);
    c.ExtendDecides(plan, r, done);
  }

  /** Plans the declared resources of one kind, in name order. */
  method PlanDeclaredKind(c: Ctx, kind: Kind, known: map<Ref, Id>, plan: Plan, ghost done: set<Ref>)
    returns (result: Result<Plan, ErrorCode>, ghost all: set<Ref>)
    requires c.decls.Keys <= c.newIds.Keys && c.DeclsOk() && c.AllRefsKnown() && c.Decides(plan, done)
    requires kind == Credentials || Namespace(c, ReferencedBy(kind), known)
    requires forall r :: r in done ==> Phase(r.kind) < Phase(kind)
    ensures result.Ok? <==> OwnershipOkFor(c, kind)
    ensures result.Err? ==> result.error == OwnershipConflict
    ensures result.Ok? ==> forall r :: r in all <==> r in done || (r.kind == kind && r in c.decls)
    ensures result.Ok? ==> c.Decides(result.value, all)
  {
    var p := plan;
    all := done;
    var declared := set r | r in c.decls && r.kind == kind;
    var todo := declared;
    while todo != {}
      invariant todo <= declared
      invariant all == done + (declared - todo)
      invariant forall q, r :: q in declared - todo && r in todo ==> Less(q, r)
      invariant c.Decides(p, all)
      invariant forall r :: r in declared - todo ==> c.OwnershipOk(r)
    {
      var r := Least(todo);
      var step := PlanNext(c, r, known, p, all);
      if step.Err? { return Err(step.error), all; }
      p := step.value;
      all := all + {r};
      todo := todo - {r};
    }
    return Ok(p), all;
  }

  /** The ids of one kind with its declarations taken into account. */
  method DeclaredIds(c: Ctx, kind: Kind) returns (ids: map<Ref, Id>)
    ensures Unpruned(c, kind, ids)
  {
    var loaded := set r | r in c.existing && r.kind == kind;
    var declared := set r | r in c.decls && r.kind == kind;
    ids := map r | r in loaded :: c.existing[r].id;
    var todo := declared;
    while todo != {}
      invariant todo <= declared
      invariant forall r :: r in declared - todo ==> (r in ids <==> c.Declared(r))
      invariant forall r :: r !in declared - todo ==> (r in ids <==> r in loaded)
      invariant forall r :: r in ids ==> ids[r] == c.FinalId(r)
    {
      var r :| r in todo;
      ids := if c.decls[r].Absent? then ids - {r}
             else ids[r := if r in c.existing then c.existing[r].id else c.NewId(r)];
      todo := todo - {r};
    }
  }

  ghost predicate Unpruned(c: Ctx, kind: Kind, ids: map<Ref, Id>) {
    && (forall r :: r in ids <==> r.kind == kind && if r in c.decls then c.Declared(r) else r in c.existing)
    && (forall r :: r in ids ==> ids[r] == c.FinalId(r))
  }

  /** Plans one table and returns the namespace it leaves. */
  method PlanKind(c: Ctx, kind: Kind, known: map<Ref, Id>, plan: Plan, ghost done: set<Ref>)
    returns (result: Result<(Plan, map<Ref, Id>), ErrorCode>, ghost all: set<Ref>)
    requires c.IdsDistinct() && c.DeclsOk() && c.AllRefsKnown() && c.Decides(plan, done)
    requires kind == Credentials || Namespace(c, ReferencedBy(kind), known)
    requires forall r :: r in done ==> Phase(r.kind) < Phase(kind)
    ensures result.Ok? <==> OwnershipOkFor(c, kind)
    ensures result.Err? ==> result.error == OwnershipConflict
    ensures result.Ok? ==> forall r :: r in all <==> r in done || (r.kind == kind && c.Covered(r))
    ensures result.Ok? ==> c.Decides(result.value.0, all)
    ensures result.Ok? ==> Namespace(c, kind, result.value.1)
  {
    var declared;
    declared, all := PlanDeclaredKind(c, kind, known, plan, done);
    if declared.Err? { return Err(declared.error), all; }
    var ids := DeclaredIds(c, kind);
    var p;
    p, all := PlanMissing(c, kind, declared.value, all);
    DropDeletedSurvivors(c, kind, ids, p.deletes);
    return Ok((p, DropDeleted(kind, ids, p.deletes))), all;
  }

  /** Removes the names whose ids are about to be deleted. */
  function DropDeleted(kind: Kind, ids: map<Ref, Id>, deletes: seq<Target>): map<Ref, Id> {
    var gone := set t | t in deletes && t.key.kind == kind :: t.key.id;
    map r | r in ids && ids[r] !in gone :: ids[r]
  }

  /** Dropping deleted ids leaves exactly the surviving names. */
  lemma DropDeletedSurvivors(c: Ctx, kind: Kind, ids: map<Ref, Id>, deletes: seq<Target>)
    requires c.IdsDistinct() && Unpruned(c, kind, ids)
    requires forall t :: t in deletes && t.key.kind == kind ==> c.Deletes(t.ref) && t == c.TargetOf(t.ref)
    requires forall r: Ref :: r.kind == kind && c.Deletes(r) ==> c.TargetOf(r) in deletes
    ensures Namespace(c, kind, DropDeleted(kind, ids, deletes))
  {
    var kept := DropDeleted(kind, ids, deletes);
    forall r | r in ids ensures r in kept <==> !c.Deletes(r) {
      if c.Deletes(r) {
        assert c.TargetOf(r) in deletes;
      } else if r !in kept {
        var t :| t in deletes && t.key == Key(kind, ids[r]);
        SameIdSameName(c, r, t.ref);
      }
    }
  }

  lemma SameIdSameName(c: Ctx, r: Ref, d: Ref)
    requires c.IdsDistinct() && d in c.existing && r.kind == d.kind && c.FinalId(r) == c.existing[d].id
    requires r in c.existing || r in c.newIds
    ensures r == d
  {
  }

  /** Distinct upserts of one kind have distinct ids. */
  lemma UpsertsInjective(c: Ctx, p: Plan, all: set<Ref>, u: Upsert, v: Upsert)
    requires c.IdsDistinct() && c.Decides(p, all) && u in p.upserts && v in p.upserts
    requires u.Key() == v.Key()
    ensures u == v
  {
    if u.ref in c.existing {
      SameIdSameName(c, v.ref, u.ref);
    } else if v.ref in c.existing {
      SameIdSameName(c, u.ref, v.ref);
    }
  }

  lemma UpsertRowKind(c: Ctx, p: Plan, all: set<Ref>, u: Upsert)
    requires c.DeclsOk() && c.Decides(p, all) && u in p.upserts
    ensures RowOk(u.Key(), u.row) && u.row.name == u.ref.name
    ensures u.row.AssetRow? <==> u.ref.kind == Assets
  {
    assert SpecOk(u.ref, c.decls[u.ref].spec);
  }

  /** Whether an asset that stays, old or updated, uses a credential id. */
  method AssetUses(c: Ctx, deletedAssets: set<Id>, updated: map<Id, Option<Id>>, credential: Ref) returns (used: bool)
    requires credential in c.existing
    requires forall a :: a in c.existing && a.kind == Assets ==>
      && (c.existing[a].id in deletedAssets <==> c.Deletes(a))
      && c.FinalCredential(a) ==
         if c.existing[a].id in updated then updated[c.existing[a].id] else c.existing[a].credential
    ensures used <==> exists a: Ref :: c.Uses(a, credential)
  {
    var assets := set a | a in c.existing && a.kind == Assets;
    var rest := assets;
    while rest != {}
      invariant rest <= assets
      invariant forall a: Ref :: c.Uses(a, credential) ==> a in rest
    {
      var a :| a in rest;
      rest := rest - {a};
      var id := c.existing[a].id;
      if id !in deletedAssets {
        var final := if id in updated then updated[id] else c.existing[a].credential;
        if final == Some(c.existing[credential].id) {
          assert c.Uses(a, credential);
          return true;
        }
      }
    }
    return false;
  }

  /** What the plan does to the assets already there: ids it deletes, credentials it rewrites. */
  method AssetOutcomes(c: Ctx, p: Plan, ghost all: set<Ref>)
    returns (deletedAssets: set<Id>, updated: map<Id, Option<Id>>)
    requires c.IdsDistinct() && c.DeclsOk() && c.Decides(p, all)
    requires forall r :: c.Covered(r) ==> r in all
    ensures forall a :: a in c.existing && a.kind == Assets ==>
      && (c.existing[a].id in deletedAssets <==> c.Deletes(a))
      && c.FinalCredential(a) ==
         if c.existing[a].id in updated then updated[c.existing[a].id] else c.existing[a].credential
  {
    forall u, v | u in p.upserts && v in p.upserts && u.row.AssetRow? && v.row.AssetRow? && u.id == v.id
      ensures u == v
    {
      UpsertRowKind(c, p, all, u);
      UpsertRowKind(c, p, all, v);
      UpsertsInjective(c, p, all, u, v);
    }
    deletedAssets := set t | t in p.deletes && t.key.kind == Assets :: t.key.id;
    updated := map u | u in p.upserts && u.row.AssetRow? :: u.id := u.row.credential;
    forall a | a in c.existing && a.kind == Assets
      ensures c.existing[a].id in deletedAssets <==> c.Deletes(a)
      ensures c.FinalCredential(a)
           == if c.existing[a].id in updated then updated[c.existing[a].id] else c.existing[a].credential
    {
      AssetAfterPlan(c, p, all, a);
    }
  }

  lemma DeletesPlanned(c: Ctx, p: Plan, all: set<Ref>)
    requires c.Decides(p, all) && forall r :: c.Covered(r) ==> r in all
    ensures forall t :: t in p.deletes ==> c.Deletes(t.ref) && t == c.TargetOf(t.ref)
    ensures forall d :: c.Deletes(d) ==> c.TargetOf(d) in p.deletes
  {
    forall d | c.Deletes(d) ensures c.TargetOf(d) in p.deletes {
      assert c.Covered(d);
    }
  }

  /** No credential is deleted while an asset still uses it. */
  method ValidateCredentialDeletes(c: Ctx, p: Plan, ghost all: set<Ref>) returns (ok: bool)
    requires c.IdsDistinct() && c.DeclsOk() && c.Decides(p, all)
    requires forall r :: c.Covered(r) ==> r in all
    ensures ok <==> !c.InUse()
  {
    hide Ctx.Decides, Ctx.Uses, Ctx.IdsDistinct, Ctx.DeclsOk;
    DeletesPlanned(c, p, all);
    var deletedAssets, updated := AssetOutcomes(c, p, all);
    for i := 0 to |p.deletes|
      invariant forall j, a :: 0 <= j < i && p.deletes[j].key.kind == Credentials ==> !c.Uses(a, p.deletes[j].ref)
    {
      var t := p.deletes[i];
      assert t in p.deletes;
      if t.key.kind == Credentials {
        var used := AssetUses(c, deletedAssets, updated, t.ref);
        if used { return false; }
      }
    }
    forall a: Ref, d: Ref | d.kind == Credentials && c.Deletes(d) ensures !c.Uses(a, d) {
      var t := c.TargetOf(d);
      assert t in p.deletes;
      var j :| 0 <= j < |p.deletes| && p.deletes[j] == t;
    }
    return true;
  }

  /** The plan's deleted ids and updated credentials are the decided ones. */
  lemma AssetAfterPlan(c: Ctx, p: Plan, all: set<Ref>, a: Ref)
    requires c.IdsDistinct() && c.DeclsOk() && c.Decides(p, all)
    requires forall r :: c.Covered(r) ==> r in all
    requires a in c.existing && a.kind == Assets
    ensures (exists t :: t in p.deletes && t.key == Key(Assets, c.existing[a].id)) <==> c.Deletes(a)
    ensures (exists u :: u in p.upserts && u.row.AssetRow? && u.id == c.existing[a].id) <==> c.Writes(a)
    ensures forall u :: u in p.upserts && u.row.AssetRow? && u.id == c.existing[a].id ==>
      u.row.credential == c.FinalCredential(a)
  {
    forall t | t in p.deletes && t.key == Key(Assets, c.existing[a].id) ensures t.ref == a {
      SameIdSameName(c, a, t.ref);
    }
    if c.Deletes(a) { assert c.TargetOf(a) in p.deletes; }
    forall u | u in p.upserts && u.row.AssetRow? && u.id == c.existing[a].id ensures u.ref == a {
      UpsertRowKind(c, p, all, u);
      SameIdSameName(c, u.ref, a);
    }
    if c.Writes(a) {
      assert c.UpsertOf(a) in p.upserts;
      UpsertRowKind(c, p, all, c.UpsertOf(a));
    }
  }

  /** Sorts the recorded changes by type and name. */
  method SortChanges(changes: seq<Change>) returns (sorted: seq<Change>)
    requires Distinct(changes)
    ensures StrictlySorted(ChangeRef, sorted)
    ensures forall c :: c in sorted <==> c in changes
  {
    sorted := [];
    for i := 0 to |changes|
      invariant StrictlySorted(ChangeRef, sorted)
      invariant forall c :: c in multiset(sorted) <==> exists j :: 0 <= j < i && changes[j] == c
    {
      forall c | c in sorted ensures ChangeRef(c) != ChangeRef(changes[i]) {
        assert c in multiset(sorted);
      }
      sorted := Insert(ChangeRef, changes[i], sorted);
    }
    assert forall c :: c in sorted <==> c in multiset(sorted);
  }

  /** Exactly when an apply can be planned. */
  ghost predicate Plannable(c: Ctx) {
    c.AllRefsKnown() && c.AllOwnershipOk() && !c.InUse()
  }

  /** The first obstacle met, in the order the planner looks for them. */
  ghost function PlanError(c: Ctx): ErrorCode
    requires !Plannable(c)
  {
    if !c.AllRefsKnown() then UnknownReference
    else if !c.AllOwnershipOk() then OwnershipConflict
    else ResourceInUse
  }

  /** The plan says everything the apply decides, and lists its changes in order. */
  ghost predicate PlanOf(c: Ctx, p: Plan) {
    c.Decides(p, c.Universe()) && StrictlySorted(ChangeRef, p.changes)
  }

  lemma ReferencesKnown(c: Ctx, database: set<Ref>)
    requires forall r: Ref :: r.kind != AccessKeys ==> (r in database <==> c.Survives(r))
    ensures AllResolve(c.decls, true, database) <==> c.AllRefsKnown()
  {
    forall r: Ref | r.kind != AccessKeys ensures Resolves(c.decls, true, database, r) <==> c.Survives(r) {
    }
    forall r | r in c.decls && c.Declared(r)
      ensures RefsResolve(c.decls, true, database, c.decls[r].spec) <==> c.RefsKnown(r)
    {
    }
  }

  method BuildPlan(c: Ctx) returns (result: Result<Plan, ErrorCode>)
    requires c.IdsDistinct() && c.DeclsOk()
    ensures result.Ok? <==> Plannable(c)
    ensures result.Err? ==> result.error == PlanError(c)
    ensures result.Ok? ==> PlanOf(c, result.value)
  {
    var credentialNames := FinalNames(c, Credentials);
    var assetNames := FinalNames(c, Assets);
    ReferencesKnown(c, credentialNames + assetNames);
    var known := ValidateReferences(c.decls, true, credentialNames + assetNames);
    if !known { return Err(UnknownReference); }
    var planned, all := PlanTables(c);
    if planned.Err? { return Err(planned.error); }
    var plan := planned.value;
    assert all == c.Universe();
    var free := ValidateCredentialDeletes(c, plan, all);
    if !free { return Err(ResourceInUse); }
    var changes := SortChanges(plan.changes);
    var sorted := plan.(changes := changes);
    SortedDecides(c, plan, changes, all);
    return Ok(sorted);
  }

  lemma NothingDecided(c: Ctx)
    ensures c.Decides(Plan([], [], [], []), {})
  {
  }

  /** Plans credentials, then assets, then access keys. */
  method PlanTables(c: Ctx) returns (result: Result<Plan, ErrorCode>, ghost all: set<Ref>)
    requires c.IdsDistinct() && c.DeclsOk() && c.AllRefsKnown()
    ensures result.Ok? <==> c.AllOwnershipOk()
    ensures result.Err? ==> result.error == OwnershipConflict
    ensures result.Ok? ==> forall r :: r in all <==> c.Covered(r)
    ensures result.Ok? ==> c.Decides(result.value, all)
  {
    hide Ctx.Decides, Ctx.IdsDistinct, Ctx.DeclsOk, Ctx.Covered, Ctx.OwnershipOk, Namespace;
    all := {};
    NothingDecided(c);
    var credentials, assets, keys;
    credentials, all := PlanKind(c, Credentials, map[], Plan([], [], [], []), all);
    if credentials.Err? { return Err(credentials.error), all; }
    assets, all := PlanKind(c, Assets, credentials.value.1, credentials.value.0, all);
    if assets.Err? { return Err(assets.error), all; }
    keys, all := PlanKind(c, AccessKeys, assets.value.1, assets.value.0, all);
    if keys.Err? { return Err(keys.error), all; }
    return Ok(keys.value.0), all;
  }

  lemma SortedDecides(c: Ctx, p: Plan, sorted: seq<Change>, all: set<Ref>)
    requires c.Decides(p, all) && StrictlySorted(ChangeRef, sorted)
    requires forall ch :: ch in sorted <==> ch in p.changes
    ensures c.Decides(p.(changes := sorted), all)
  {
    forall i, j | 0 <= i < j < |sorted| ensures sorted[i].ref != sorted[j].ref {
      assert Less(ChangeRef(sorted[i]), ChangeRef(sorted[j]));
      LessIrreflexive(sorted[i].ref);
    }
  }
}
