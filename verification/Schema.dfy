/** The catalog tables, their constraints, and the single statements that write them. */
module Schema {
  import opened Wrappers
  import opened Names

  /** A UUID; only equality matters. */
  datatype Id = Id(text: string)

  type SourceId = string

  /** Primary key of a resource and of its ownership row. */
  datatype Key = Key(kind: Kind, id: Id)

  datatype AuthType = Password | SshKey

  datatype SecretField = PasswordField | PrivateKeyField | PassphraseField

  /** Ciphertext bound to the context "<id>:<field>" under the one master key. */
  datatype Envelope = Envelope(id: Id, field: SecretField, plaintext: string)

  datatype Protocol = Ssh | Tcp

  datatype PublicKey = PublicKey(algorithm: string, blob: string)

  /** The SHA-256 fingerprint, taken as a deterministic function of the key blob. */
  datatype Fingerprint = Sha256(blob: string)

  datatype AccessMode = All | Restricted

  datatype Row =
    | CredentialRow(name: Name, username: string, authType: AuthType, password: Option<Envelope>,
                    privateKey: Option<Envelope>, passphrase: Option<Envelope>)
    | AssetRow(name: Name, protocol: Protocol, host: string, port: int, displayName: Option<string>,
               description: Option<string>, tags: Option<seq<string>>, credential: Option<Id>)
    | KeyRow(name: Name, publicKey: PublicKey, fingerprint: Fingerprint, enabled: bool, mode: AccessMode)

  /** One row of access_key_assets. */
  datatype Grant = Grant(key: Id, asset: Id)

  /** What a manifest asks of one resource, after its material has been read. An allowlist is a set:
      its names are distinct, and it is sorted before it is hashed. */
  datatype Spec =
    | CredentialSpec(authType: AuthType, username: string, password: Option<string>,
                     privateKey: Option<string>, passphrase: Option<string>)
    | AssetSpec(protocol: Protocol, host: string, port: int, displayName: Option<string>,
                description: Option<string>, credential: Option<Name>)
    | AccessSpec(publicKey: PublicKey, enabled: bool, assets: Option<set<Name>>)

  /** The applied-spec digest, taken as injective; credential secrets are salted with the name. */
  datatype Hash = Hash(salt: Name, spec: Spec)

  function HashOf(ref: Ref, spec: Spec): Hash {
    Hash(if spec.CredentialSpec? then ref.name else "", spec)
  }

  /** Digests tell specs apart, and those of credentials their names too; nothing else. */
  lemma DigestsDiffer(r: Ref, s: Spec, q: Ref, t: Spec)
    ensures HashOf(r, s) == HashOf(q, t) <==> s == t && (s.CredentialSpec? ==> r.name == q.name)
  {
  }

  /** One row of resource_ownership. `sourceKey` stands for the text "<type>/<name>". */
  datatype Owner =
    | Local
    | Declarative(source: SourceId, sourceKey: Ref, generation: nat, hash: Hash, orphaned: bool)

  datatype ErrorCode =
    | UnsupportedApiVersion | UnknownField | DuplicateResource | InvalidResourceName | InvalidSecretSource
    | SecretUnavailable | InvalidCredentialMaterial | UnknownReference | ResourceInUse | OwnershipConflict
    | ManagedBySource | RevisionConflict | SourceScanIncomplete | ApplyFailed

  /** One row of config_sources. */
  datatype Source = Source(generation: nat, lastSuccess: Option<nat>, lastError: Option<ErrorCode>)

  datatype Db = Db(
    rows: map<Key, Row>,
    allow: set<Grant>,
    owners: map<Key, Owner>,
    sources: map<SourceId, Source>,
    revision: nat)

  const EMPTY := Db(map[], {}, map[], map[], 0)

  function RefOf(k: Key, row: Row): Ref {
    Ref(k.kind, row.name)
  }

  // ---------- Constraints ----------

  /** Column types and CHECK clauses of a single row. */
  predicate RowOk(k: Key, row: Row) {
    match row
    case CredentialRow(_, _, _, _, _, _) => k.kind == Credentials
    case AssetRow(_, protocol, _, port, _, _, _, credential) =>
      k.kind == Assets && 1 <= port <= 65535 && (protocol == Ssh || credential == None)
    case KeyRow(_, _, _, _, _) => k.kind == AccessKeys
  }

  /** Two rows that no UNIQUE clause of one table allows together. */
  predicate Clash(k: Key, row: Row, j: Key, other: Row) {
    && k.kind == j.kind
    && (|| row.name == other.name
        || (row.KeyRow? && other.KeyRow?
            && (row.publicKey == other.publicKey || row.fingerprint == other.fingerprint)))
  }

  predicate CredentialExists(rows: map<Key, Row>, row: Row) {
    row.AssetRow? && row.credential.Some? ==> Key(Credentials, row.credential.value) in rows
  }

  ghost predicate RowsValid(rows: map<Key, Row>) {
    && (forall k :: k in rows ==> RowOk(k, rows[k]))
    && (forall k :: k in rows ==> CredentialExists(rows, rows[k]))
    && (forall k, j :: k in rows && j in rows && k != j ==> !Clash(k, rows[k], j, rows[j]))
  }

  /** Every grant joins a restricted key to an asset. */
  ghost predicate GrantsValid(rows: map<Key, Row>, allow: set<Grant>) {
    forall g :: g in allow ==>
      && Key(AccessKeys, g.key) in rows
      && Key(Assets, g.asset) in rows
      && rows[Key(AccessKeys, g.key)].KeyRow?
      && rows[Key(AccessKeys, g.key)].mode == Restricted
  }

  /** One ownership row per resource, and the source key of a declared resource is its reference. */
  ghost predicate OwnersValid(rows: map<Key, Row>, owners: map<Key, Owner>) {
    && owners.Keys == rows.Keys
    && forall k :: k in rows && owners[k].Declarative? ==> owners[k].sourceKey == RefOf(k, rows[k])
  }

  ghost predicate Valid(db: Db) {
    RowsValid(db.rows) && GrantsValid(db.rows, db.allow) && OwnersValid(db.rows, db.owners)
  }

  ghost predicate OwnedBy(db: Db, source: SourceId, k: Key) {
    k in db.owners && db.owners[k].Declarative? && db.owners[k].source == source
  }

  // ---------- Statements ----------

  datatype Violation = CheckViolation | UniqueViolation | ForeignKeyViolation

  predicate Unclashed(rows: map<Key, Row>, k: Key, row: Row) {
    forall j | j in rows :: j != k ==> !Clash(k, row, j, rows[j])
  }

  /** INSERT or UPDATE of the row with primary key `k`. */
  function WriteRow(rows: map<Key, Row>, k: Key, row: Row): (r: Result<map<Key, Row>, Violation>)
    ensures r.Ok? && RowsValid(rows) && (k in rows ==> rows[k].CredentialRow? == row.CredentialRow?)
            ==> RowsValid(r.value)
  {
    if !RowOk(k, row) then Err(CheckViolation)
    else if !Unclashed(rows, k, row) then Err(UniqueViolation)
    else if !CredentialExists(rows, row) then Err(ForeignKeyViolation)
    else Ok(rows[k := row])
  }

  /** INSERT of one grant. */
  function InsertGrant(db: Db, g: Grant): (r: Result<Db, Violation>) {
    if g in db.allow then Err(UniqueViolation)
    else if Key(AccessKeys, g.key) !in db.rows || Key(Assets, g.asset) !in db.rows then Err(ForeignKeyViolation)
    else Ok(db.(allow := db.allow + {g}))
  }

  /** The UNIQUE clause on (type, source, source key) of the ownership table. */
  predicate SourceKeyFree(owners: map<Key, Owner>, k: Key, owner: Owner) {
    owner.Declarative? ==>
      forall j | j in owners :: j != k && j.kind == k.kind && owners[j].Declarative? ==>
        owners[j].source != owner.source || owners[j].sourceKey != owner.sourceKey
  }

  function WriteOwner(owners: map<Key, Owner>, k: Key, owner: Owner): (r: Result<map<Key, Owner>, Violation>) {
    if SourceKeyFree(owners, k, owner) then Ok(owners[k := owner]) else Err(UniqueViolation)
  }

  predicate Referenced(rows: map<Key, Row>, credential: Id) {
    exists k | k in rows :: rows[k].AssetRow? && rows[k].credential == Some(credential)
  }

  predicate TouchedBy(g: Grant, gone: set<Key>) {
    Key(AccessKeys, g.key) in gone || Key(Assets, g.asset) in gone
  }

  function WithoutGrants(allow: set<Grant>, gone: set<Key>): set<Grant> {
    set g | g in allow && !TouchedBy(g, gone)
  }

  /** DELETE of resource rows, cascading to their grants, and of their ownership rows. */
  function Without(db: Db, gone: set<Key>): Db {
    db.(rows := db.rows - gone, owners := db.owners - gone, allow := WithoutGrants(db.allow, gone))
  }

  /** DELETE of one resource and its ownership row; RESTRICT protects a referenced credential. */
  function DeleteResource(db: Db, k: Key): (r: Result<Db, Violation>) {
    if k.kind == Credentials && Referenced(db.rows - {k}, k.id) then Err(ForeignKeyViolation)
    else Ok(Without(db, {k}))
  }

  lemma WithoutTwice(db: Db, a: set<Key>, b: set<Key>)
    ensures Without(Without(db, a), b) == Without(db, a + b)
  {
    assert db.rows - a - b == db.rows - (a + b);
    assert db.owners - a - b == db.owners - (a + b);
    assert WithoutGrants(WithoutGrants(db.allow, a), b) == WithoutGrants(db.allow, a + b);
  }

  /** Deleting unreferenced resources keeps every constraint. */
  lemma WithoutValid(db: Db, gone: set<Key>)
    requires Valid(db)
    requires forall k :: k in gone && k.kind == Credentials ==> !Referenced(db.rows - gone, k.id)
    ensures Valid(Without(db, gone))
  {
    var rows := db.rows - gone;
    forall k | k in rows ensures CredentialExists(rows, rows[k]) {
      assert CredentialExists(db.rows, db.rows[k]);
      if rows[k].AssetRow? && rows[k].credential.Some? {
        assert Referenced(rows, rows[k].credential.value);
      }
    }
  }

  // ---------- Reading by name ----------

  /** What the planner loads for each resource: id, ownership, and an asset's credential. */
  datatype Existing = Existing(id: Id, owner: Option<Owner>, credential: Option<Id>)

  function ExistingAt(db: Db, k: Key): Existing
    requires k in db.rows
  {
    Existing(k.id,
             if k in db.owners then Some(db.owners[k]) else None,
             if db.rows[k].AssetRow? then db.rows[k].credential else None)
  }

  ghost predicate UniqueNames(db: Db) {
    forall k, j :: k in db.rows && j in db.rows && RefOf(k, db.rows[k]) == RefOf(j, db.rows[j]) ==> k == j
  }

  lemma ValidUniqueNames(db: Db)
    requires Valid(db)
    ensures UniqueNames(db)
  {
    forall k, j | k in db.rows && j in db.rows && RefOf(k, db.rows[k]) == RefOf(j, db.rows[j])
      ensures k == j
    {
      assert k != j ==> !Clash(k, db.rows[k], j, db.rows[j]);
    }
  }

  /** The tables of one kind joined with ownership and indexed by name. */
  ghost function LoadKind(db: Db, kind: Kind): map<Ref, Existing>
    requires UniqueNames(db)
  {
    map k | k in db.rows && k.kind == kind :: RefOf(k, db.rows[k]) := ExistingAt(db, k)
  }

  ghost function Load(db: Db): map<Ref, Existing>
    requires UniqueNames(db)
  {
    map k | k in db.rows :: RefOf(k, db.rows[k]) := ExistingAt(db, k)
  }

  lemma LoadKindPart(db: Db, kind: Kind)
    requires UniqueNames(db)
    ensures forall r :: r in LoadKind(db, kind) <==> r in Load(db) && r.kind == kind
    ensures forall r :: r in LoadKind(db, kind) ==> LoadKind(db, kind)[r] == Load(db)[r]
  {
  }

  /** Loading the three tables one by one, with nothing in between, loads them all. */
  lemma LoadedTogether(db: Db)
    requires UniqueNames(db)
    ensures LoadKind(db, Credentials) + LoadKind(db, Assets) + LoadKind(db, AccessKeys) == Load(db)
  {
    hide UniqueNames, LoadKind, Load;
    LoadKindPart(db, Credentials);
    LoadKindPart(db, Assets);
    LoadKindPart(db, AccessKeys);
  }
}
