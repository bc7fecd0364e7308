/** What one apply asks for, and what it decides about each resource. */
module Decisions {
  import opened Wrappers
  import opened Names
  import opened Schema

  datatype Decl = Absent | Present(spec: Spec)

  datatype Action = Created | Updated | Deleted | Orphaned | Unchanged

  datatype Change = Change(ref: Ref, action: Action)

  function ChangeRef(c: Change): Ref { c.ref }

  /** A row to insert or update, with its references already resolved to ids. */
  datatype Upsert = Upsert(ref: Ref, id: Id, hash: Hash, row: Row, grants: set<Id>) {
    function Key(): Key { Schema.Key(ref.kind, id) }
  }

  datatype Target = Target(ref: Ref, key: Key)

  datatype Plan = Plan(upserts: seq<Upsert>, orphans: seq<Target>, deletes: seq<Target>, changes: seq<Change>)

  /** Resolving material yields specs of the right kind, ports in range and no credential on tcp. */
  predicate SpecOk(r: Ref, spec: Spec) {
    match spec
    case CredentialSpec(_, _, _, _, _) => r.kind == Credentials
    case AssetSpec(protocol, _, port, _, _, credential) =>
      r.kind == Assets && 1 <= port <= 65535 && (protocol == Tcp ==> credential == None)
    case AccessSpec(_, _, _) => r.kind == AccessKeys
  }

  /** Everything one apply knows when it plans: the manifest, the flags, the loaded tables, and
      the new ids set aside for resources it may create. */
  datatype Ctx = Ctx(source: SourceId, decls: map<Ref, Decl>, prune: bool,
                     existing: map<Ref, Existing>, newIds: map<Ref, Id>)
  {
    ghost predicate DeclsOk() {
      forall r :: r in decls && decls[r].Present? ==> SpecOk(r, decls[r].spec)
    }

    /** Ids tell resources of one kind apart, and new ids are new. */
    ghost predicate IdsDistinct() {
      && (forall r :: r in decls ==> r in newIds)
      && (forall r, q :: r in existing && q in existing && r.kind == q.kind && r != q ==>
            existing[r].id != existing[q].id)
      && (forall r, q :: r in newIds && q in newIds && r.kind == q.kind && r != q ==> newIds[r] != newIds[q])
      && (forall r, q :: r in newIds && q in existing && r.kind == q.kind ==> newIds[r] != existing[q].id)
    }

    predicate Owned(r: Ref) {
      && r in existing && existing[r].owner.Some?
      && existing[r].owner.value.Declarative? && existing[r].owner.value.source == source
    }

    predicate Declared(r: Ref) {
      r in decls && decls[r].Present?
    }

    predicate Deletes(r: Ref) {
      && r in existing
      && (if r in decls then decls[r].Absent? else prune && Owned(r))
    }

    predicate Orphans(r: Ref) {
      r !in decls && !prune && Owned(r) && !existing[r].owner.value.orphaned
    }

    /** The resources an apply has something to say about. */
    predicate Covered(r: Ref) {
      r in decls || Owned(r)
    }

    /** Whether the name is taken once the apply is done. */
    predicate Survives(r: Ref) {
      Declared(r) || (r in existing && !Deletes(r))
    }

    /** The id behind a name once the apply is done. */
    function FinalId(r: Ref): Id {
      if r in existing then existing[r].id else NewId(r)
    }

    function NewId(r: Ref): Id {
      if r in newIds then newIds[r] else Id("")
    }

    function WantedHash(r: Ref): Hash
      requires Declared(r)
    {
      HashOf(r, decls[r].spec)
    }

    function ActionOf(r: Ref): Action
      requires Covered(r)
    {
      if r in decls then
        if decls[r].Absent? then
          if r in existing then Deleted else Unchanged
        else if r !in existing then Created
        else if Owned(r) && existing[r].owner.value.hash == WantedHash(r) && !existing[r].owner.value.orphaned
        then Unchanged
        else Updated
      else if prune then Deleted
      else if !existing[r].owner.value.orphaned then Orphaned
      else Unchanged
    }

    predicate Writes(r: Ref) {
      Declared(r) && ActionOf(r) != Unchanged
    }

    predicate CredentialKnown(spec: Spec) {
      spec.AssetSpec? && spec.credential.Some? ==> Survives(Ref(Credentials, spec.credential.value))
    }

    predicate AssetsKnown(spec: Spec) {
      spec.AccessSpec? && spec.assets.Some? ==> forall n | n in spec.assets.value :: Survives(Ref(Assets, n))
    }

    predicate RefsKnown(r: Ref) {
      Declared(r) ==> CredentialKnown(decls[r].spec) && AssetsKnown(decls[r].spec)
    }

    function CredentialId(spec: Spec): Option<Id> {
      if spec.AssetSpec? && spec.credential.Some?
      then Some(FinalId(Ref(Credentials, spec.credential.value)))
      else None
    }

    function GrantedIds(spec: Spec): set<Id> {
      if spec.AccessSpec? && spec.assets.Some?
      then set n | n in spec.assets.value :: FinalId(Ref(Assets, n))
      else {}
    }

    /** The row a declaration stands for, given the id of the credential it names. */
    static function RowOf(r: Ref, id: Id, spec: Spec, credential: Option<Id>): Row {
      match spec
      case CredentialSpec(authType, username, password, privateKey, passphrase) =>
        CredentialRow(r.name, username, authType, Seal(id, PasswordField, password),
                      Seal(id, PrivateKeyField, privateKey), Seal(id, PassphraseField, passphrase))
      case AssetSpec(protocol, host, port, displayName, description, _) =>
        AssetRow(r.name, protocol, host, port, displayName, description, None, credential)
      case AccessSpec(publicKey, enabled, assets) =>
        KeyRow(r.name, publicKey, Sha256(publicKey.blob), enabled, if assets.Some? then Restricted else All)
    }

    static function Seal(id: Id, field: SecretField, secret: Option<string>): Option<Envelope> {
      if secret.Some? then Some(Envelope(id, field, secret.value)) else None
    }

    function UpsertOf(r: Ref): Upsert
      requires Declared(r)
    {
      var spec := decls[r].spec;
      Upsert(r, FinalId(r), WantedHash(r), RowOf(r, FinalId(r), spec, CredentialId(spec)), GrantedIds(spec))
    }

    function TargetOf(r: Ref): Target
      requires r in existing
    {
      Target(r, Schema.Key(r.kind, existing[r].id))
    }

    // ---------- When planning succeeds ----------

    ghost predicate AllRefsKnown() {
      forall r :: r in decls ==> RefsKnown(r)
    }

    /** A declared name that exists belongs to this source. */
    predicate OwnershipOk(r: Ref) {
      r in decls && r in existing ==> Owned(r)
    }

    ghost predicate AllOwnershipOk() {
      forall r :: r in decls ==> OwnershipOk(r)
    }

    /** The credential an existing asset refers to once the upserts have run. */
    function FinalCredential(a: Ref): Option<Id>
      requires a in existing
    {
      if Writes(a) then CredentialId(decls[a].spec) else existing[a].credential
    }

    predicate Uses(a: Ref, credential: Ref) {
      && a in existing && a.kind == Assets && !Deletes(a)
      && credential in existing && FinalCredential(a) == Some(existing[credential].id)
    }

    /** Some credential to be deleted would still be used by an asset. */
    ghost predicate InUse() {
      exists a: Ref, d: Ref :: d.kind == Credentials && Deletes(d) && Uses(a, d)
    }

    // ---------- Plans ----------

    /** The plan extended by what the apply decides about one more resource. */
    function Extend(p: Plan, r: Ref): Plan
      requires Covered(r)
    {
      Plan(if Writes(r) then p.upserts + [UpsertOf(r)] else p.upserts,
           if Orphans(r) then p.orphans + [TargetOf(r)] else p.orphans,
           if Deletes(r) then p.deletes + [TargetOf(r)] else p.deletes,
           p.changes + [Change(r, ActionOf(r))])
    }

    /** The plan holds exactly the decisions about the resources in `done`. */
    ghost predicate Decides(p: Plan, done: set<Ref>) {
      match p
      case Plan(upserts, orphans, deletes, changes) =>
        && (forall r :: r in done ==> Covered(r))
        && (forall u: Upsert :: u in upserts ==> u.ref in done && Writes(u.ref) && u == UpsertOf(u.ref))
        && (forall r :: r in done && Writes(r) ==> UpsertOf(r) in upserts)
        && (forall t: Target :: t in orphans <==> t.ref in done && Orphans(t.ref) && t == TargetOf(t.ref))
        && (forall t: Target :: t in deletes <==> t.ref in done && Deletes(t.ref) && t == TargetOf(t.ref))
        && (forall c: Change :: c in changes <==> c.ref in done && c.action == ActionOf(c.ref))
        && Distinct(changes)
        && InPhases(upserts)
    }

    /** The resources an apply covers, as a finite set. */
    function Universe(): set<Ref> {
      decls.Keys + (set r | r in existing && Owned(r))
    }

    lemma ExtendDecides(p: Plan, r: Ref, done: set<Ref>)
      requires Decides(p, done) && Covered(r) && r !in done
      requires Writes(r) ==> forall u: Upsert :: u in p.upserts ==> Earlier(u.ref, r)
      ensures Decides(Extend(p, r), done + {r})
    {
    }
  }

  ghost predicate Distinct(changes: seq<Change>) {
    forall i, j :: 0 <= i < j < |changes| ==> changes[i].ref != changes[j].ref
  }

  function Phase(kind: Kind): nat {
    match kind
    case Credentials => 0
    case Assets => 1
    case AccessKeys => 2
  }

  /** Upserts run by kind, credentials first, and by name within a kind. */
  predicate Earlier(a: Ref, b: Ref) {
    if a.kind == b.kind then NameLess(a.name, b.name) else Phase(a.kind) < Phase(b.kind)
  }

  ghost predicate InPhases(upserts: seq<Upsert>) {
    forall i, j :: 0 <= i < j < |upserts| ==> Earlier(upserts[i].ref, upserts[j].ref)
  }
}
