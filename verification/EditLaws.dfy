/** What each local edit demands and stores, column by column. */
module EditLaws {
  import opened Wrappers
  import opened Names
  import opened Schema
  import opened LocalEdits
  import Text

  /** The resource an edit is about. */
  function Target(e: Edit): Key {
    match e
    case AddCredential(id, _) => Key(Credentials, id)
    case UpdateCredential(id, _) => Key(Credentials, id)
    case AddAsset(id, _) => Key(Assets, id)
    case UpdateAsset(id, _) => Key(Assets, id)
    case AddKey(id, _, _, _, _) => Key(AccessKeys, id)
    case SetActive(id, _) => Key(AccessKeys, id)
    case SetAccess(id, _, _) => Key(AccessKeys, id)
    case Delete(k) => k
  }

  ghost predicate NameFree(db: Db, k: Key, name: Name) {
    forall j :: j in db.rows && j.kind == k.kind && j != k ==> db.rows[j].name != name
  }

  // ---------- Assets ----------

  /** The protocol as given, without white space around it and in lower case. */
  function Word(a: NewAsset): string {
    Text.AsciiLower(Text.Trim(a.protocol))
  }

  ghost predicate AssetDemands(db: Db, k: Key, a: NewAsset) {
    && (Word(a) == "ssh" || Word(a) == "tcp")
    && 1 <= a.port <= 65535
    && NameFree(db, k, a.name)
    && (Word(a) == "ssh" && a.credential.Some? ==> Key(Credentials, a.credential.value) in db.rows)
  }

  /** A new asset is refused exactly if its protocol is not ssh or tcp, its port is out of range, its id or
      name is taken, or it is an ssh asset whose credential does not exist. */
  lemma AddAssetExactly(db: Db, id: Id, a: NewAsset)
    requires Valid(db)
    ensures Admits(db, AddAsset(id, a)) <==> Key(Assets, id) !in db.rows && AssetDemands(db, Key(Assets, id), a)
  {
    AssetWritable(db, Key(Assets, id), a);
  }

  /** An update demands the same of all but the id, which has to be that of a local asset. */
  lemma UpdateAssetExactly(db: Db, id: Id, a: NewAsset)
    requires Valid(db)
    ensures var k := Key(Assets, id);
      Admits(db, UpdateAsset(id, a)) <==> k in db.owners && db.owners[k] == Local && AssetDemands(db, k, a)
  {
    AssetWritable(db, Key(Assets, id), a);
  }

  lemma AssetWritable(db: Db, k: Key, a: NewAsset)
    requires Valid(db) && k.kind == Assets
    ensures AssetOk(a) && Writable(db.rows, k, AssetRowFor(a, None)) <==> AssetDemands(db, k, a)
  {
    AssetWord(a);
    hide Text.Trim, Text.AsciiLower, ParseProtocol, Word, GrantsValid, OwnersValid;
    assert AssetOk(a) ==> (Unclashed(db.rows, k, AssetRowFor(a, None)) <==> NameFree(db, k, a.name));
  }

  lemma AssetWord(a: NewAsset)
    ensures ParseProtocol(a.protocol) == if Word(a) == "ssh" then Some(Ssh) else if Word(a) == "tcp" then Some(Tcp) else None
  {
  }

  /** Every column of an asset that was added or updated: as given, the protocol by its word, the
      credential only if that is "ssh", the display name as it was. */
  lemma AssetStored(db: Db, e: Edit)
    requires Valid(db) && Admits(db, e) && (e.AddAsset? || e.UpdateAsset?)
    ensures Target(e) in Effect(db, e).rows
    ensures var row := Effect(db, e).rows[Target(e)];
      && row.AssetRow? && row.name == e.asset.name && row.host == e.asset.hostname && row.port == e.asset.port
      && row.description == e.asset.description && row.tags == Some(e.asset.tags)
      && (Word(e.asset) == "ssh" ==> row.protocol == Ssh && row.credential == e.asset.credential)
      && (Word(e.asset) == "tcp" ==> row.protocol == Tcp && row.credential == None)
      && (e.AddAsset? ==> row.displayName == None)
      && (e.UpdateAsset? ==> Target(e) in db.rows && db.rows[Target(e)].AssetRow? && row.displayName == db.rows[Target(e)].displayName)
  {
    AssetWord(e.asset);
    if e.UpdateAsset? { assert RowOk(Target(e), db.rows[Target(e)]); }
    hide Text.Trim, Text.AsciiLower, ParseProtocol, Word, RowsValid, GrantsValid, OwnersValid, Unclashed;
  }

  /** Letters in either case and white space around the word make no difference. */
  lemma EitherCase(a: NewAsset, letters: string, before: string, after: string)
    requires a.protocol == before + letters + after
    requires |letters| == 3 && forall c | c in letters :: 'A' <= c <= 'Z' || 'a' <= c <= 'z'
    requires (forall c | c in before :: Text.IsSpace(c)) && forall c | c in after :: Text.IsSpace(c)
    ensures |Word(a)| == 3 && forall i :: 0 <= i < 3 ==>
      Word(a)[i] as int == letters[i] as int + if 'A' <= letters[i] <= 'Z' then 32 else 0
  {
    assert letters[0] in letters && letters[2] in letters;
    SpacesTrimmed(letters, before, after);
    Text.AsciiLowerExactly(letters);
  }

  lemma SpacesTrimmed(s: string, before: string, after: string)
    requires s != [] && !Text.IsSpace(s[0]) && !Text.IsSpace(s[|s| - 1])
    requires (forall c | c in before :: Text.IsSpace(c)) && forall c | c in after :: Text.IsSpace(c)
    ensures Text.Trim(before + s + after) == s
  {
    StartTrimmed(s + after, before);
    assert before + s + after == before + (s + after);
    EndTrimmed(s, after);
  }

  lemma {:induction false} StartTrimmed(s: string, before: string)
    requires s != [] && !Text.IsSpace(s[0]) && forall c | c in before :: Text.IsSpace(c)
    ensures Text.TrimStart(before + s) == s
  {
    if before == [] {
      assert before + s == s;
    } else {
      assert (before + s)[1..] == before[1..] + s;
      StartTrimmed(s, before[1..]);
    }
  }

  lemma {:induction false} EndTrimmed(s: string, after: string)
    requires s != [] && !Text.IsSpace(s[|s| - 1]) && forall c | c in after :: Text.IsSpace(c)
    ensures Text.TrimEnd(s + after) == s
  {
    if after == [] {
      assert s + after == s;
    } else {
      var t := s + after;
      assert t[..|t| - 1] == s + after[..|after| - 1] && t[|t| - 1] == after[|after| - 1];
      EndTrimmed(s, after[..|after| - 1]);
    }
  }

  // ---------- Credentials ----------

  /** The material each way to log in needs. */
  predicate MaterialGiven(c: NewCredential) {
    && (c.login == PasswordLogin ==> c.password.Some?)
    && (c.login == KeyLogin ==> c.privateKey.Some?)
    && (c.login == KeyWithPassphraseLogin ==> c.privateKey.Some? && c.passphrase.Some?)
  }

  lemma CredentialExactly(db: Db, id: Id, c: NewCredential)
    requires Valid(db)
    ensures var k := Key(Credentials, id);
      && (Admits(db, AddCredential(id, c)) <==> MaterialGiven(c) && k !in db.rows && NameFree(db, k, c.name))
      && (Admits(db, UpdateCredential(id, c)) <==>
            MaterialGiven(c) && k in db.owners && db.owners[k] == Local && NameFree(db, k, c.name))
  {
    hide GrantsValid, OwnersValid;
    var k := Key(Credentials, id);
    assert Unclashed(db.rows, k, CredentialRowFor(c)) <==> NameFree(db, k, c.name);
  }

  lemma CredentialStored(db: Db, e: Edit)
    requires Valid(db) && Admits(db, e) && (e.AddCredential? || e.UpdateCredential?)
    ensures Target(e) in Effect(db, e).rows
    ensures var row, c := Effect(db, e).rows[Target(e)], e.credential;
      && row.CredentialRow? && row.name == c.name && row.username == c.username
      && (row.authType == Password <==> c.login == PasswordLogin)
      && row.password == c.password && row.privateKey == c.privateKey && row.passphrase == c.passphrase
  {
    hide RowsValid, GrantsValid, OwnersValid, Unclashed;
  }

  // ---------- Access keys ----------

  lemma AddKeyExactly(db: Db, id: Id, name: Name, publicKey: PublicKey, mode: AccessMode, assets: seq<Id>)
    requires Valid(db)
    ensures var k := Key(AccessKeys, id);
      Admits(db, AddKey(id, name, publicKey, mode, assets)) <==>
        && k !in db.rows && NameFree(db, k, name)
        && (forall j :: j in db.rows && db.rows[j].KeyRow? ==>
              db.rows[j].publicKey != publicKey && db.rows[j].fingerprint != Sha256(publicKey.blob))
        && forall a :: a in assets ==> Key(Assets, a) in db.rows
  {
    hide GrantsValid, OwnersValid;
    var k := Key(AccessKeys, id);
    forall j | j in db.rows ensures db.rows[j].KeyRow? <==> j.kind == AccessKeys { assert RowOk(j, db.rows[j]); }
    if k !in db.rows {
      assert Unclashed(db.rows, k, NewKeyRow(name, publicKey, mode)) <==>
        NameFree(db, k, name)
        && forall j :: j in db.rows && db.rows[j].KeyRow? ==>
             db.rows[j].publicKey != publicKey && db.rows[j].fingerprint != Sha256(publicKey.blob);
    }
  }

  /** A new key is enabled, and granted the assets listed; other keys keep their grants. */
  lemma KeyStored(db: Db, e: Edit)
    requires Valid(db) && Admits(db, e) && e.AddKey?
    ensures Target(e) in Effect(db, e).rows
    ensures var row := Effect(db, e).rows[Target(e)];
      && row.KeyRow? && row.name == e.name && row.publicKey == e.publicKey && row.fingerprint == Sha256(e.publicKey.blob)
      && row.enabled && row.mode == e.mode
    ensures forall g: Grant :: g in Effect(db, e).allow <==> if g.key == e.id then g.asset in e.assets else g in db.allow
  {
    hide RowsValid, OwnersValid, Unclashed;
  }

  /** Only the flag changes, and the revision only if the flag does. */
  lemma ActiveStored(db: Db, id: Id, active: bool)
    requires Valid(db) && Admits(db, SetActive(id, active))
    ensures var k := Key(AccessKeys, id); var db' := Effect(db, SetActive(id, active));
      && k in db.rows && k in db'.rows && db.rows[k].KeyRow? && db'.rows[k].KeyRow?
      && db'.rows[k].enabled == active && db'.rows[k] == db.rows[k].(enabled := active) && db'.allow == db.allow
      && db'.revision == db.revision + (if db.rows[k].enabled == active then 0 else 1)
  {
    assert RowOk(Key(AccessKeys, id), db.rows[Key(AccessKeys, id)]);
    hide RowsValid, GrantsValid;
  }

  /** Only the mode changes, and the grants become those listed. */
  lemma AccessStored(db: Db, e: Edit)
    requires Valid(db) && Admits(db, e) && e.SetAccess?
    ensures var k := Target(e); var db' := Effect(db, e);
      && k in db.rows && k in db'.rows && db.rows[k].KeyRow? && db'.rows[k].KeyRow?
      && db'.rows[k].mode == e.mode && db'.rows[k] == db.rows[k].(mode := e.mode)
    ensures forall g: Grant :: g in Effect(db, e).allow <==> if g.key == e.id then g.asset in e.assets else g in db.allow
  {
    assert RowOk(Target(e), db.rows[Target(e)]);
    hide RowsValid, GrantsValid;
  }

  lemma AccessExactly(db: Db, e: Edit)
    requires Valid(db) && (e.SetAccess? || e.SetActive?)
    ensures Admits(db, e) <==>
      && Target(e) in db.owners && db.owners[Target(e)] == Local
      && (e.SetAccess? ==> (e.mode == All ==> e.assets == []) && forall a :: a in e.assets ==> Key(Assets, a) in db.rows)
  {
  }

  // ---------- Deleting, and what edits leave alone ----------

  /** A resource can be deleted exactly if it is local and, when a credential, no asset refers to it; it
      goes with its ownership row and every grant of it or to it, and nothing else does. */
  lemma DeleteExactly(db: Db, k: Key)
    requires Valid(db)
    ensures Admits(db, Delete(k)) <==>
      && k in db.owners && db.owners[k] == Local
      && (k.kind == Credentials ==> forall j :: j in db.rows && db.rows[j].AssetRow? ==> db.rows[j].credential != Some(k.id))
    ensures Admits(db, Delete(k)) ==>
      var db' := Effect(db, Delete(k));
      && db'.rows == db.rows - {k} && db'.owners == db.owners - {k}
      && forall g: Grant :: g in db'.allow <==> g in db.allow && Key(AccessKeys, g.key) != k && Key(Assets, g.asset) != k
  {
    hide RowsValid, GrantsValid;
  }

  /** Everything but its target an edit leaves alone; what it adds is local, and what it updates keeps its
      owner. */
  lemma EditFrame(db: Db, e: Edit)
    requires Valid(db) && Admits(db, e)
    ensures var db' := Effect(db, e);
      && db'.sources == db.sources
      && (forall j :: j != Target(e) ==> (j in db'.rows <==> j in db.rows) && (j in db'.owners <==> j in db.owners))
      && (forall j :: j != Target(e) && j in db.rows ==> db'.rows[j] == db.rows[j])
      && (forall j :: j != Target(e) && j in db.owners ==> db'.owners[j] == db.owners[j])
      && (!e.Delete? ==> Target(e) in db'.owners && db'.owners[Target(e)] == Local)
      && (e.AddCredential? || e.UpdateCredential? || e.AddAsset? || e.UpdateAsset? || e.SetActive? ==> db'.allow == db.allow)
      && db'.revision == db.revision + (if db' == db then 0 else 1)
  {
    hide RowsValid, GrantsValid, Unclashed, AssetRowFor, CredentialRowFor, NewKeyRow, MaterialOk, AssetOk, GrantsTo, WithoutGrants,
         CredentialExists, Referenced;
  }
}
