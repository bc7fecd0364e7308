/** What each entry of the startup configuration comes to in the catalog. */
module ConfigLaws {
  import opened Wrappers
  import opened Names
  import opened Schema
  import opened AtomicApply
  import opened Histories
  import opened Convergence
  import opened Manifests
  import opened ManifestLaws
  import opened StartupConfig
  import opened Stored
  import Catalogs
  import Planner
  import Text

  /** The startup source has a name an apply accepts. */
  lemma StartupSourceOk()
    ensures Catalogs.SourceIdOk(STARTUP_SOURCE)
  {
  }

  /** The material is taken as the configuration gives it, and the type is told by which is given. */
  predicate CredentialAsConfigured(c: StartupCredential, spec: Spec) {
    && spec.CredentialSpec? && spec.username == Text.Trim(c.username)
    && spec.authType == (if c.password.Some? then Password else SshKey)
    && spec.password == c.password && spec.privateKey == c.privateKey && spec.passphrase == c.passphrase
  }

  /** An asset is ssh unless it says tcp, and on port 22 unless it says which. */
  predicate AssetAsConfigured(a: StartupAsset, spec: Spec) {
    && spec.AssetSpec? && spec.protocol == (if a.protocol == Some(Tcp) then Tcp else Ssh)
    && spec.host == Text.Trim(a.host) && spec.port == (if a.port == None then 22 else a.port.value)
    && OptionallyTrimmed(a.displayName, spec.displayName) && OptionallyTrimmed(a.description, spec.description)
    && spec.credential == a.credential
  }

  /** A key is enabled unless it says not, and restricted if it lists assets, to those. */
  ghost predicate KeyAsConfigured(k: StartupAccessKey, host: Host, spec: Spec) {
    && spec.AccessSpec? && spec.enabled == (k.enabled != Some(false))
    && (spec.assets.Some? <==> k.assets.Some?) && (k.assets.Some? ==> forall n :: n in spec.assets.value <==> n in k.assets.value)
    && (k.publicKey.Some? ==> ParsePublicKey(k.publicKey.value, host) == Ok(spec.publicKey))
    && (k.publicKey == None ==>
          && k.publicKeyFile.Some? && k.publicKeyFile.value in host.files
          && ParsePublicKey(host.files[k.publicKeyFile.value], host) == Ok(spec.publicKey))
  }

  lemma CredentialConfigured(c: StartupCredential, host: Host)
    requires ResolveCredential(CredentialFor(c), host).Ok?
    ensures ResolveCredential(CredentialFor(c), host).value.Present?
    ensures CredentialAsConfigured(c, ResolveCredential(CredentialFor(c), host).value.spec)
  {
    hide Text.Trim;
    CredentialResolves(CredentialFor(c), host);
  }

  lemma AssetConfigured(a: StartupAsset)
    requires ResolveAsset(AssetFor(a)).Ok?
    ensures ResolveAsset(AssetFor(a)).value.Present? && AssetAsConfigured(a, ResolveAsset(AssetFor(a)).value.spec)
  {
    hide Text.Trim, ResolveAsset;
    AssetResolves(AssetFor(a));
  }

  lemma KeyConfigured(k: StartupAccessKey, host: Host)
    requires ResolvedAccess(AccessFor(k), host).Ok?
    ensures ResolvedAccess(AccessFor(k), host).value.Present? && KeyAsConfigured(k, host, ResolvedAccess(AccessFor(k), host).value.spec)
  {
    hide ParsePublicKey, ResolvedAccess;
    AccessResolves(AccessFor(k), host);
  }

  ghost predicate AsConfigured(c: Config, host: Host, r: Ref, spec: Spec) {
    match r.kind
    case Credentials => r.name in c.credentials && CredentialAsConfigured(c.credentials[r.name], spec)
    case Assets => r.name in c.assets && AssetAsConfigured(c.assets[r.name], spec)
    case AccessKeys => r.name in c.accessKeys && KeyAsConfigured(c.accessKeys[r.name], host, spec)
  }

  /** What a start asks of each configured resource. */
  lemma StartupSpecs(c: Config, host: Host, r: Ref)
    requires ValidOffline(StartupManifest(c), host) && r in StartupRequest(c, host).decls
    ensures StartupRequest(c, host).decls[r].Present? && AsConfigured(c, host, r, StartupRequest(c, host).decls[r].spec)
  {
    hide ResolveCredential, ResolveAsset, ResolvedAccess, CredentialFor, AssetFor, AccessFor, ValidName, Planner.AllResolve,
         CredentialAsConfigured, AssetAsConfigured, KeyAsConfigured;
    RefsMentioned(StartupManifest(c));
    match r.kind
    case Credentials => CredentialConfigured(c.credentials[r.name], host);
    case Assets => AssetConfigured(c.assets[r.name]);
    case AccessKeys => KeyConfigured(c.accessKeys[r.name], host);
  }

  /** Every configured resource is stored, column by column, as the configuration says, and a configured
      access key reaches exactly what it says. */
  ghost predicate StoredAsConfigured(db: Db, c: Config, host: Host, r: Ref) {
    exists k, spec :: Holds(db, k, r) && OwnedBy(db, STARTUP_SOURCE, k) && AsConfigured(c, host, r, spec) && ColumnsMatch(db, k, spec)
      && (spec.AccessSpec? ==> ReachesAsDeclared(db, k.id, spec.enabled, spec.assets))
  }

  lemma StartStores(states: seq<Db>, events: seq<Event>, i: nat, c: Config, host: Host, q: Request, newIds: map<Ref, Id>, r: Ref)
    requires Run(states, events) && states[0] == EMPTY && i < |events| && Disciplined(events, STARTUP_SOURCE)
    requires Accepted(c, host) && q == StartupRequest(c, host) && events[i] == Applying(q, newIds)
    requires AppliesTo(states[i], q, newIds, states[i + 1]) && StartupManifest(c).Mentions(r)
    ensures StoredAsConfigured(states[i + 1], c, host, r)
  {
    hide Run, Disciplined, AppliesTo, ValidOffline, ColumnsMatch, ReachesAsDeclared, StartupManifest, StartupRequest, AsConfigured,
         Manifest.Mentions, Holds, OwnedBy;
    RequestParts(c, host);
    StartupAllPresent(c, host, r);
    StartupSpecs(c, host, r);
    StepsFit(states, events, i);
    ConvergedColumns(states, events, i, q, newIds, r);
  }

  lemma StepsFit(states: seq<Db>, events: seq<Event>, i: nat)
    requires Run(states, events) && i < |events|
    ensures i + 1 < |states|
  {
  }
}
