/** The startup configuration: the manifest it stands for, its cross-checks, and what the apply at
    every start then guarantees. */
module StartupConfig {
  import opened Wrappers
  import opened Names
  import opened Schema
  import opened AtomicApply
  import opened Planner
  import opened Histories
  import opened Convergence
  import opened Manifests

  datatype StartupCredential = StartupCredential(
    username: string, password: Option<string>, privateKey: Option<string>, passphrase: Option<string>)

  datatype StartupAsset = StartupAsset(
    protocol: Option<Protocol>, host: string, port: Option<Port>, displayName: Option<string>,
    description: Option<string>, credential: Option<Name>)

  datatype StartupAccessKey = StartupAccessKey(
    publicKey: Option<string>, publicKeyFile: Option<string>, enabled: Option<bool>, assets: Option<seq<Name>>)

  /** The resources of a configuration; its other settings have no bearing on the catalog. */
  datatype Config = Config(
    credentials: map<Name, StartupCredential>, assets: map<Name, StartupAsset>, accessKeys: map<Name, StartupAccessKey>)

  const STARTUP_SOURCE: SourceId := "startup-config"

  function Inline(value: Option<string>): Option<SecretSource> {
    if value == None then None else Some(SecretSource(None, None, value))
  }

  function CredentialFor(c: StartupCredential): CredentialDeclaration {
    CredentialDeclaration(false, Some(if c.password.Some? then Password else SshKey), Some(c.username),
                          Inline(c.password), Inline(c.privateKey), Inline(c.passphrase))
  }

  function AssetFor(a: StartupAsset): AssetDeclaration {
    AssetDeclaration(false, Some(if a.protocol.Some? then a.protocol.value else Ssh), Some(a.host),
                     Some(if a.port.Some? then a.port.value else 22), a.displayName, a.description, a.credential)
  }

  function AccessFor(k: StartupAccessKey): AccessDeclaration {
    var source :=
      if k.publicKey.Some? && k.publicKeyFile == None then Inline(k.publicKey)
      else if k.publicKey == None && k.publicKeyFile.Some? then Some(SecretSource(k.publicKeyFile, None, None))
      else None;
    AccessDeclaration(false, source, k.enabled, k.assets)
  }

  function StartupManifest(c: Config): Manifest {
    Manifest(API_VERSION,
             map n | n in c.credentials :: CredentialFor(c.credentials[n]),
             map n | n in c.assets :: AssetFor(c.assets[n]),
             map n | n in c.accessKeys :: AccessFor(c.accessKeys[n]))
  }

  // ---------- Validation ----------

  predicate CredentialChecked(c: StartupCredential) {
    && (c.password.Some? <==> c.privateKey == None)
    && !(c.password.Some? && c.passphrase.Some?)
  }

  predicate AssetChecked(a: StartupAsset) {
    !(a.protocol == Some(Tcp) && a.port == None)
  }

  predicate AccessKeyChecked(k: StartupAccessKey) {
    k.publicKey.Some? <==> k.publicKeyFile == None
  }

  predicate AssetsChecked(c: Config) {
    forall n | n in c.assets :: AssetChecked(c.assets[n])
  }

  predicate Accepted(c: Config, host: Host) {
    && (forall n | n in c.credentials :: CredentialChecked(c.credentials[n]))
    && AssetsChecked(c)
    && (forall n | n in c.accessKeys :: AccessKeyChecked(c.accessKeys[n]))
    && ValidOffline(StartupManifest(c), host)
  }

  method Validate(c: Config, host: Host) returns (ok: bool)
    ensures ok <==> Accepted(c, host)
  {
    var names := c.credentials.Keys;
    while names != {}
      invariant names <= c.credentials.Keys
      invariant forall n :: n in c.credentials.Keys - names ==> CredentialChecked(c.credentials[n])
    {
      var n :| n in names;
      var credential := c.credentials[n];
      match (credential.password, credential.privateKey) {
        case (Some(_), Some(_)) => return false;
        case (None, None) => return false;
        case _ =>
      }
      if credential.password.Some? && credential.passphrase.Some? { return false; }
      names := names - {n};
    }
    names := c.assets.Keys;
    while names != {}
      invariant names <= c.assets.Keys
      invariant forall n :: n in c.assets.Keys - names ==> AssetChecked(c.assets[n])
    {
      var n :| n in names;
      if c.assets[n].protocol == Some(Tcp) && c.assets[n].port == None { return false; }
      names := names - {n};
    }
    names := c.accessKeys.Keys;
    while names != {}
      invariant names <= c.accessKeys.Keys
      invariant forall n :: n in c.accessKeys.Keys - names ==> AccessKeyChecked(c.accessKeys[n])
    {
      var n :| n in names;
      var key := c.accessKeys[n];
      if key.publicKey.Some? && key.publicKeyFile.Some? { return false; }
      if key.publicKey == None && key.publicKeyFile == None { return false; }
      names := names - {n};
    }
    var valid := ValidateOffline(StartupManifest(c), host);
    return valid.Ok?;
  }

  lemma CredentialMustBeChecked(c: StartupCredential, host: Host)
    requires ResolveCredential(CredentialFor(c), host).Ok?
    ensures CredentialChecked(c)
  {
  }

  lemma AccessKeyMustBeChecked(k: StartupAccessKey, host: Host)
    requires ResolvedAccess(AccessFor(k), host).Ok?
    ensures AccessKeyChecked(k)
  {
  }

  /** Of the cross-checks only the explicit port of tcp assets adds to offline validation, which
      already refuses what the checks of credentials and access keys refuse. */
  lemma OnlyThePortCheckAdds(c: Config, host: Host)
    ensures Accepted(c, host) <==>
      && ValidOffline(StartupManifest(c), host)
      && forall n :: n in c.assets && c.assets[n].protocol == Some(Tcp) ==> c.assets[n].port.Some?
  {
    hide ValidName, ResolveCredential, ResolveAsset, ResolvedAccess, CredentialChecked, AccessKeyChecked,
         CredentialFor, AssetFor, AccessFor;
    var m := StartupManifest(c);
    if ValidOffline(m, host) {
      RefsMentioned(m);
      forall n | n in c.credentials ensures CredentialChecked(c.credentials[n]) {
        assert m.Mentions(Ref(Credentials, n)) && ResolvedAt(m, host, Ref(Credentials, n)).Ok?;
        CredentialMustBeChecked(c.credentials[n], host);
      }
      forall n | n in c.accessKeys ensures AccessKeyChecked(c.accessKeys[n]) {
        assert m.Mentions(Ref(AccessKeys, n)) && ResolvedAt(m, host, Ref(AccessKeys, n)).Ok?;
        AccessKeyMustBeChecked(c.accessKeys[n], host);
      }
    }
  }

  // ---------- The apply at every start ----------

  /** What a start applies, with pruning. */
  function StartupRequest(c: Config, host: Host): Request
    requires ValidOffline(StartupManifest(c), host)
  {
    Request(STARTUP_SOURCE, DeclsOf(StartupManifest(c), host), true)
  }

  ghost predicate FromStartup(q: Request) {
    exists c, host :: Accepted(c, host) && q == StartupRequest(c, host)
  }

  /** The startup source is fed by accepted configurations only. */
  ghost predicate StartupOnly(events: seq<Event>) {
    forall i :: 0 <= i < |events| && events[i].Applying? && events[i].request.source == STARTUP_SOURCE ==>
      FromStartup(events[i].request)
  }

  lemma StartupSelfContained(q: Request)
    requires FromStartup(q)
    ensures Resolved(q) && SelfContained(q)
  {
    var c, host :| Accepted(c, host) && q == StartupRequest(c, host);
    hide SelfContained, ValidOffline, DeclsOf;
    OfflineIsSelfContained(StartupManifest(c), host, STARTUP_SOURCE, true);
  }

  /** Starts keep the discipline themselves: as long as nothing but starts applies under the startup
      source, all its manifests stand on their own. */
  lemma StartupDisciplined(events: seq<Event>)
    requires StartupOnly(events)
    ensures Disciplined(events, STARTUP_SOURCE)
  {
    hide FromStartup, SelfContained;
    forall i | 0 <= i < |events| && events[i].Applying? && events[i].request.source == STARTUP_SOURCE
      ensures SelfContained(events[i].request)
    {
      StartupSelfContained(events[i].request);
    }
  }

  lemma PresentResolves(d: Declaration, host: Host)
    requires !d.absent && ResolvedDeclaration(d, host).Ok?
    ensures ResolvedDeclaration(d, host).value.Present?
  {
    hide ReadSecret, OptionalSecret, ParsePublicKey, OptionalText, AllowlistError, ValidName;
  }

  lemma NothingAbsent(c: Config, r: Ref)
    requires StartupManifest(c).Mentions(r)
    ensures StartupManifest(c).At(r).Some? && !StartupManifest(c).At(r).value.absent
  {
    hide Inline;
  }

  /** A configuration declares every resource it lists, as present. */
  lemma StartupAllPresent(c: Config, host: Host, r: Ref)
    requires ValidOffline(StartupManifest(c), host)
    ensures r in StartupRequest(c, host).decls <==> StartupManifest(c).Mentions(r)
    ensures r in StartupRequest(c, host).decls ==> StartupRequest(c, host).decls[r].Present?
  {
    hide ValidName, ResolvedDeclaration, AllResolve, StartupManifest, Manifest.At, Manifest.Mentions, Manifest.Refs;
    RefsMentioned(StartupManifest(c));
    if StartupManifest(c).Mentions(r) {
      NothingAbsent(c, r);
      assert ResolvedAt(StartupManifest(c), host, r).Ok?;
      PresentResolves(StartupManifest(c).At(r).value, host);
    }
  }

  /** The startup source owns exactly what the configuration lists, current and as configured. */
  ghost predicate Configured(db: Db, m: Manifest, q: Request)
    requires UniqueNames(db)
  {
    && (forall k :: k in db.rows && OwnedBy(db, STARTUP_SOURCE, k) ==> m.Mentions(RefOf(k, db.rows[k])))
    && (forall r :: m.Mentions(r) ==>
          && r in q.decls && q.decls[r].Present?
          && OwnsCurrent(db, STARTUP_SOURCE, r, q.decls[r].spec) && StoredAsDeclared(db, r, q.decls[r].spec))
  }

  /** Whatever local edits, failures and applies of other sources came before, a start that succeeds
      leaves the startup source owning exactly the resources of the configuration, each as configured,
      provided every manifest ever applied under its name stood on its own. The API and the CLI take
      any manifest under any source name, so this is for their callers to keep. */
  lemma StartConverges(states: seq<Db>, events: seq<Event>, i: nat, c: Config, host: Host, q: Request, newIds: map<Ref, Id>)
    requires Run(states, events) && states[0] == EMPTY && i < |events| && Disciplined(events, STARTUP_SOURCE)
    requires Accepted(c, host) && q == StartupRequest(c, host) && events[i] == Applying(q, newIds)
    requires AppliesTo(states[i], q, newIds, states[i + 1])
    ensures UniqueNames(states[i + 1]) && Configured(states[i + 1], StartupManifest(c), q)
  {
    hide Follows, AppliesTo, StoredAsDeclared, OwnsCurrent, Disciplined, UniqueNames, ValidOffline,
         Run, StartupManifest, StartupRequest, Manifest.Mentions;
    RequestParts(c, host);
    Converges(states, events, i, q, newIds);
    forall r: Ref ensures r in q.decls <==> StartupManifest(c).Mentions(r)
                  ensures r in q.decls ==> q.decls[r].Present? {
      StartupAllPresent(c, host, r);
    }
  }

  lemma RequestParts(c: Config, host: Host)
    requires ValidOffline(StartupManifest(c), host)
    ensures StartupRequest(c, host).source == STARTUP_SOURCE && StartupRequest(c, host).prune
  {
  }
}
