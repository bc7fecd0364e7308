/** Local CRUD transactions: when each commits, and the state it then installs. */
module LocalEdits {
  import opened Wrappers
  import opened Names
  import opened Schema
  import Text

  datatype Login = PasswordLogin | KeyLogin | KeyWithPassphraseLogin

  datatype NewCredential = NewCredential(
    name: Name, username: string, login: Login,
    password: Option<Envelope>, privateKey: Option<Envelope>, passphrase: Option<Envelope>)

  datatype NewAsset = NewAsset(
    name: Name, protocol: string, hostname: string, port: int,
    description: Option<string>, tags: seq<string>, credential: Option<Id>)

  datatype Edit =
    | AddCredential(id: Id, credential: NewCredential)
    | UpdateCredential(id: Id, credential: NewCredential)
    | AddAsset(id: Id, asset: NewAsset)
    | UpdateAsset(id: Id, asset: NewAsset)
    | AddKey(id: Id, name: Name, publicKey: PublicKey, mode: AccessMode, assets: seq<Id>)
    | SetActive(id: Id, active: bool)
    | SetAccess(id: Id, mode: AccessMode, assets: seq<Id>)
    | Delete(key: Key)

  predicate MaterialOk(c: NewCredential) {
    match c.login
    case PasswordLogin => c.password.Some?
    case KeyLogin => c.privateKey.Some?
    case KeyWithPassphraseLogin => c.privateKey.Some? && c.passphrase.Some?
  }

  function CredentialRowFor(c: NewCredential): Row {
    CredentialRow(c.name, c.username, if c.login == PasswordLogin then Password else SshKey,
                  c.password, c.privateKey, c.passphrase)
  }

  function ParseProtocol(text: string): Option<Protocol> {
    var word := Text.AsciiLower(Text.Trim(text));
    if word == "ssh" then Some(Ssh) else if word == "tcp" then Some(Tcp) else None
  }

  predicate AssetOk(a: NewAsset) {
    ParseProtocol(a.protocol).Some? && 1 <= a.port <= 65535
  }

  /** The normalised row: canonical protocol, and no credential unless the protocol is ssh. */
  function AssetRowFor(a: NewAsset, displayName: Option<string>): Row
    requires AssetOk(a)
  {
    var protocol := ParseProtocol(a.protocol).value;
    AssetRow(a.name, protocol, a.hostname, a.port, displayName, a.description, Some(a.tags),
             if protocol == Ssh then a.credential else None)
  }

  predicate IsLocal(db: Db, k: Key) {
    k in db.owners && db.owners[k] == Local
  }

  predicate Writable(rows: map<Key, Row>, k: Key, row: Row) {
    Unclashed(rows, k, row) && CredentialExists(rows, row)
  }

  predicate AllAssets(rows: map<Key, Row>, assets: seq<Id>) {
    forall a | a in assets :: Key(Assets, a) in rows
  }

  function GrantsTo(key: Id, assets: seq<Id>): set<Grant> {
    set a | a in assets :: Grant(key, a)
  }

  function NewKeyRow(name: Name, publicKey: PublicKey, mode: AccessMode): Row {
    KeyRow(name, publicKey, Sha256(publicKey.blob), true, mode)
  }

  /** Exactly when the transaction commits. */
  predicate Admits(db: Db, e: Edit) {
    match e
    case AddCredential(id, c) =>
      MaterialOk(c) && Key(Credentials, id) !in db.rows
      && Unclashed(db.rows, Key(Credentials, id), CredentialRowFor(c))
    case UpdateCredential(id, c) =>
      MaterialOk(c) && IsLocal(db, Key(Credentials, id))
      && Unclashed(db.rows, Key(Credentials, id), CredentialRowFor(c))
    case AddAsset(id, a) =>
      AssetOk(a) && Key(Assets, id) !in db.rows
      && Writable(db.rows, Key(Assets, id), AssetRowFor(a, None))
    case UpdateAsset(id, a) =>
      AssetOk(a) && IsLocal(db, Key(Assets, id))
      && Writable(db.rows, Key(Assets, id), AssetRowFor(a, None))
    case AddKey(id, name, publicKey, mode, assets) =>
      AllAssets(db.rows, assets) && Key(AccessKeys, id) !in db.rows
      && Unclashed(db.rows, Key(AccessKeys, id), NewKeyRow(name, publicKey, mode))
    case SetActive(id, _) =>
      IsLocal(db, Key(AccessKeys, id))
    case SetAccess(id, mode, assets) =>
      (mode == All ==> assets == []) && IsLocal(db, Key(AccessKeys, id)) && AllAssets(db.rows, assets)
    case Delete(k) =>
      IsLocal(db, k) && (k.kind == Credentials ==> !Referenced(db.rows, k.id))
  }

  function Inserted(db: Db, k: Key, row: Row): Db {
    db.(rows := db.rows[k := row], owners := db.owners[k := Local], revision := db.revision + 1)
  }

  function Rewritten(db: Db, k: Key, row: Row): Db {
    db.(rows := db.rows[k := row], revision := db.revision + 1)
  }

  /** The state a committing transaction installs. */
  function Effect(db: Db, e: Edit): Db
    requires Admits(db, e) && Valid(db)
  {
    match e
    case AddCredential(id, c) =>
      Inserted(db, Key(Credentials, id), CredentialRowFor(c))
    case UpdateCredential(id, c) =>
      Rewritten(db, Key(Credentials, id), CredentialRowFor(c))
    case AddAsset(id, a) =>
      Inserted(db, Key(Assets, id), AssetRowFor(a, None))
    case UpdateAsset(id, a) =>
      var k := Key(Assets, id);
      assert RowOk(k, db.rows[k]);
      Rewritten(db, k, AssetRowFor(a, db.rows[k].displayName))
    case AddKey(id, name, publicKey, mode, assets) =>
      Inserted(db, Key(AccessKeys, id), NewKeyRow(name, publicKey, mode))
        .(allow := db.allow + GrantsTo(id, assets))
    case SetActive(id, active) =>
      var k := Key(AccessKeys, id);
      assert RowOk(k, db.rows[k]);
      if db.rows[k].enabled == active then db else Rewritten(db, k, db.rows[k].(enabled := active))
    case SetAccess(id, mode, assets) =>
      var k := Key(AccessKeys, id);
      assert RowOk(k, db.rows[k]);
      Rewritten(db, k, db.rows[k].(mode := mode))
        .(allow := (set g | g in db.allow && g.key != id) + GrantsTo(id, assets))
    case Delete(k) =>
      Without(db, {k}).(revision := db.revision + 1)
  }

  /** What the CLI, the API and the importer guarantee of the calls they make: an unrestricted
      key is created without assignments. */
  predicate CallerOk(e: Edit) {
    e.AddKey? && e.mode == All ==> e.assets == []
  }

  // ---------- What every committed edit keeps ----------

  lemma InsertValid(db: Db, k: Key, row: Row)
    requires Valid(db) && k !in db.rows && RowOk(k, row) && Writable(db.rows, k, row)
    ensures Valid(Inserted(db, k, row))
  {
    var db' := Inserted(db, k, row);
    assert RowsValid(db'.rows) by {
      forall i, j | i in db'.rows && j in db'.rows && i != j ensures !Clash(i, db'.rows[i], j, db'.rows[j]) {
        if i != k && j != k { assert !Clash(i, db.rows[i], j, db.rows[j]); }
      }
      forall j | j in db'.rows ensures CredentialExists(db'.rows, db'.rows[j]) {
        assert j != k ==> CredentialExists(db.rows, db.rows[j]);
      }
    }
    assert forall g :: g in db.allow ==> Key(AccessKeys, g.key) != k && Key(Assets, g.asset) != k;
  }

  lemma RewriteValid(db: Db, k: Key, row: Row)
    requires Valid(db) && IsLocal(db, k) && RowOk(k, row) && Writable(db.rows, k, row)
    requires row.KeyRow? ==> row.mode == Restricted || forall g :: g in db.allow ==> g.key != k.id
    ensures Valid(Rewritten(db, k, row))
  {
    var db' := Rewritten(db, k, row);
    assert RowOk(k, db.rows[k]);
    assert RowsValid(db'.rows) by {
      forall i, j | i in db'.rows && j in db'.rows && i != j ensures !Clash(i, db'.rows[i], j, db'.rows[j]) {
        if i != k && j != k { assert !Clash(i, db.rows[i], j, db.rows[j]); }
      }
      forall j | j in db'.rows ensures CredentialExists(db'.rows, db'.rows[j]) {
        assert j != k ==> CredentialExists(db.rows, db.rows[j]);
      }
    }
    assert db'.owners.Keys == db'.rows.Keys;
  }

  lemma OwnRowUnclashed(rows: map<Key, Row>, k: Key, row: Row)
    requires RowsValid(rows) && k in rows && rows[k].KeyRow? && row.KeyRow?
    requires row.name == rows[k].name && row.publicKey == rows[k].publicKey && row.fingerprint == rows[k].fingerprint
    ensures Writable(rows, k, row)
  {
    forall j | j in rows && j != k ensures !Clash(k, row, j, rows[j]) {
      assert !Clash(k, rows[k], j, rows[j]);
    }
  }

  /** The catalog invariant is kept by every edit exactly when the caller kept its side. */
  lemma EffectValid(db: Db, e: Edit)
    requires Valid(db) && Admits(db, e)
    ensures Valid(Effect(db, e)) <==> CallerOk(e)
  {
    if !CallerOk(e) {
      assert Grant(e.id, e.assets[0]) in Effect(db, e).allow;
    } else {
      CheckedEffectValid(db, e);
    }
  }

  lemma CheckedEffectValid(db: Db, e: Edit)
    requires Valid(db) && Admits(db, e) && CallerOk(e)
    ensures Valid(Effect(db, e))
  {
    match e
    case AddCredential(id, c) => InsertValid(db, Key(Credentials, id), CredentialRowFor(c));
    case UpdateCredential(id, c) => RewriteValid(db, Key(Credentials, id), CredentialRowFor(c));
    case AddAsset(id, a) => InsertValid(db, Key(Assets, id), AssetRowFor(a, None));
    case UpdateAsset(id, a) =>
      var k := Key(Assets, id);
      assert RowOk(k, db.rows[k]);
      var row := AssetRowFor(a, db.rows[k].displayName);
      forall j | j in db.rows && j != k ensures !Clash(k, row, j, db.rows[j]) {
        assert !Clash(k, AssetRowFor(a, None), j, db.rows[j]);
      }
      RewriteValid(db, k, row);
    case AddKey(id, name, publicKey, mode, assets) =>
      InsertValid(db, Key(AccessKeys, id), NewKeyRow(name, publicKey, mode));
    case SetActive(id, active) =>
      var k := Key(AccessKeys, id);
      assert RowOk(k, db.rows[k]);
      var row := db.rows[k].(enabled := active);
      OwnRowUnclashed(db.rows, k, row);
      RewriteValid(db, k, row);
    case SetAccess(id, mode, assets) =>
      var k := Key(AccessKeys, id);
      assert RowOk(k, db.rows[k]);
      var row := db.rows[k].(mode := mode);
      OwnRowUnclashed(db.rows, k, row);
      var bare := db.(allow := set g | g in db.allow && g.key != id);
      RewriteValid(bare, k, row);
    case Delete(k) =>
      assert k.kind == Credentials ==> !Referenced(db.rows - {k}, k.id);
      WithoutValid(db, {k});
  }

  /** Without its callers' guarantee the invariant fails: the core accepts an unrestricted new key
      with an assignment. */
  lemma UncheckedCallBreaksInvariant()
    ensures exists db, e :: Valid(db) && Admits(db, e) && !CallerOk(e) && !Valid(Effect(db, e))
  {
    var k := Key(Assets, Id("1"));
    var db := EMPTY.(rows := map[k := AssetRow("a", Tcp, "h", 1, None, None, None, None)], owners := map[k := Local]);
    var e := AddKey(Id("2"), "k", PublicKey("t", "b"), All, [Id("1")]);
    assert Admits(db, e);
    assert Grant(Id("2"), Id("1")) in Effect(db, e).allow;
  }
}
