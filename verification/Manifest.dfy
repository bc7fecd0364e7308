/** Manifests: merging the files of one scope, reading their material, and offline validation. */
module Manifests {
  import opened Wrappers
  import opened Names
  import opened Schema
  import opened Decisions
  import opened Planner
  import opened AtomicApply
  import opened Convergence
  import Text

  const API_VERSION := "hop/v1alpha1"

  /** Where a secret is read from; `inline` is set by the startup configuration only. */
  datatype SecretSource = SecretSource(file: Option<string>, env: Option<string>, inline: Option<string>)

  type Port = n: int | 0 <= n <= 65535

  datatype Declaration =
    | CredentialDeclaration(absent: bool, authType: Option<AuthType>, username: Option<string>,
                            password: Option<SecretSource>, privateKey: Option<SecretSource>,
                            passphrase: Option<SecretSource>)
    | AssetDeclaration(absent: bool, protocol: Option<Protocol>, host: Option<string>, port: Option<Port>,
                       displayName: Option<string>, description: Option<string>, credential: Option<Name>)
    | AccessDeclaration(absent: bool, publicKey: Option<SecretSource>, enabled: Option<bool>,
                        assets: Option<seq<Name>>)

  type CredentialDeclaration = d: Declaration | d.CredentialDeclaration?
    witness CredentialDeclaration(true, None, None, None, None, None)
  type AssetDeclaration = d: Declaration | d.AssetDeclaration?
    witness AssetDeclaration(true, None, None, None, None, None, None)
  type AccessDeclaration = d: Declaration | d.AccessDeclaration?
    witness AccessDeclaration(true, None, None, None)

  datatype Manifest = Manifest(
    apiVersion: string,
    credentials: map<Name, CredentialDeclaration>,
    assets: map<Name, AssetDeclaration>,
    access: map<Name, AccessDeclaration>)
  {
    /** What the manifest says about one resource. */
    function At(r: Ref): Option<Declaration> {
      match r.kind
      case Credentials => if r.name in credentials then Some(credentials[r.name]) else None
      case Assets => if r.name in assets then Some(assets[r.name]) else None
      case AccessKeys => if r.name in access then Some(access[r.name]) else None
    }

    function NamesOf(kind: Kind): set<Name> {
      match kind
      case Credentials => credentials.Keys
      case Assets => assets.Keys
      case AccessKeys => access.Keys
    }

    predicate Mentions(r: Ref) {
      r.name in NamesOf(r.kind)
    }

    function Refs(): set<Ref> {
      (set n | n in credentials :: Ref(Credentials, n)) + (set n | n in assets :: Ref(Assets, n))
      + (set n | n in access :: Ref(AccessKeys, n))
    }
  }

  // ---------- Merging ----------

  /** The first `n` manifests have the supported version and mention no resource twice. */
  ghost predicate MergeableTo(ms: seq<Manifest>, n: nat)
    requires n <= |ms|
  {
    && (forall i :: 0 <= i < n ==> ms[i].apiVersion == API_VERSION)
    && (forall i, j, r :: 0 <= i < n && 0 <= j < n && i != j && ms[i].Mentions(r) ==> !ms[j].Mentions(r))
  }

  ghost predicate Mergeable(ms: seq<Manifest>) {
    ms != [] && MergeableTo(ms, |ms|)
  }

  /** `m` says what the first `n` manifests say, all of it and nothing else. */
  ghost predicate UnionTo(ms: seq<Manifest>, n: nat, m: Manifest)
    requires n <= |ms|
  {
    && m.apiVersion == API_VERSION
    && (forall i, r :: 0 <= i < n && ms[i].Mentions(r) ==> m.Mentions(r) && m.At(r) == ms[i].At(r))
    && (forall r :: m.Mentions(r) ==> exists i :: 0 <= i < n && ms[i].Mentions(r))
  }

  ghost predicate IsUnion(ms: seq<Manifest>, m: Manifest) {
    UnionTo(ms, |ms|, m)
  }

  /** Inserts the resources of one table into another, unless a name is there already. */
  method MergeResources<T>(target: map<Name, T>, source: map<Name, T>) returns (r: Option<map<Name, T>>)
    ensures r.Some? <==> target.Keys !! source.Keys
    ensures r.Some? ==> r.value == target + source
  {
    var merged := target;
    var todo := source.Keys;
    while todo != {}
      invariant todo <= source.Keys
      invariant target.Keys !! (source.Keys - todo)
      invariant forall n :: n in merged <==> n in target || n in source.Keys - todo
      invariant forall n :: n in merged ==> merged[n] == if n in target then target[n] else source[n]
    {
      var name :| name in todo;
      if name in merged { return None; }
      merged := merged[name := source[name]];
      todo := todo - {name};
    }
    return Some(merged);
  }

  /** Why a merge fails: at the first manifest that cannot join the ones before it. */
  ghost predicate MergeFails(ms: seq<Manifest>, error: ErrorCode) {
    || (ms == [] && error == SourceScanIncomplete)
    || (exists n :: 0 <= n < |ms| && MergeableTo(ms, n) && FailsAt(ms, n, error))
  }

  ghost predicate FailsAt(ms: seq<Manifest>, n: nat, error: ErrorCode)
    requires n < |ms|
  {
    if ms[n].apiVersion != API_VERSION then error == UnsupportedApiVersion
    else error == DuplicateResource && exists i, r :: 0 <= i < n && ms[i].Mentions(r) && ms[n].Mentions(r)
  }

  method Merge(ms: seq<Manifest>) returns (r: Result<Manifest, ErrorCode>)
    ensures r.Ok? <==> Mergeable(ms)
    ensures r.Ok? ==> IsUnion(ms, r.value)
    ensures r.Err? ==> MergeFails(ms, r.error)
  {
    var merged := Manifest(API_VERSION, map[], map[], map[]);
    for i := 0 to |ms|
      invariant MergeableTo(ms, i) && UnionTo(ms, i, merged)
    {
      if ms[i].apiVersion != API_VERSION { return Err(UnsupportedApiVersion); }
      var credentials := MergeResources(merged.credentials, ms[i].credentials);
      if credentials == None { MergeStops(ms, i, merged, Credentials); return Err(DuplicateResource); }
      var assets := MergeResources(merged.assets, ms[i].assets);
      if assets == None { MergeStops(ms, i, merged, Assets); return Err(DuplicateResource); }
      var access := MergeResources(merged.access, ms[i].access);
      if access == None { MergeStops(ms, i, merged, AccessKeys); return Err(DuplicateResource); }
      var joined := Manifest(API_VERSION, credentials.value, assets.value, access.value);
      MergeGoesOn(ms, i, merged, joined);
      merged := joined;
    }
    if ms == [] { return Err(SourceScanIncomplete); }
    return Ok(merged);
  }

  lemma MergeStops(ms: seq<Manifest>, n: nat, merged: Manifest, kind: Kind)
    requires n < |ms| && MergeableTo(ms, n) && UnionTo(ms, n, merged) && ms[n].apiVersion == API_VERSION
    requires !(merged.NamesOf(kind) !! ms[n].NamesOf(kind))
    ensures !Mergeable(ms) && MergeFails(ms, DuplicateResource)
  {
    var name :| name in merged.NamesOf(kind) && name in ms[n].NamesOf(kind);
    var r := Ref(kind, name);
    assert merged.Mentions(r) && ms[n].Mentions(r);
    var i :| 0 <= i < n && ms[i].Mentions(r);
    assert FailsAt(ms, n, DuplicateResource);
  }

  /** The joined tables say what either manifest says. */
  lemma JoinedSays(merged: Manifest, m: Manifest, joined: Manifest, r: Ref)
    requires forall kind :: merged.NamesOf(kind) !! m.NamesOf(kind)
    requires joined == Manifest(API_VERSION, merged.credentials + m.credentials, merged.assets + m.assets, merged.access + m.access)
    ensures joined.Mentions(r) <==> merged.Mentions(r) || m.Mentions(r)
    ensures merged.Mentions(r) ==> !m.Mentions(r) && joined.At(r) == merged.At(r)
    ensures m.Mentions(r) ==> joined.At(r) == m.At(r)
  {
    assert merged.NamesOf(r.kind) !! m.NamesOf(r.kind);
  }

  lemma MergeGoesOn(ms: seq<Manifest>, n: nat, merged: Manifest, joined: Manifest)
    requires n < |ms| && MergeableTo(ms, n) && UnionTo(ms, n, merged) && ms[n].apiVersion == API_VERSION
    requires forall kind :: merged.NamesOf(kind) !! ms[n].NamesOf(kind)
    requires joined == Manifest(API_VERSION, merged.credentials + ms[n].credentials, merged.assets + ms[n].assets,
                                merged.access + ms[n].access)
    ensures MergeableTo(ms, n + 1) && UnionTo(ms, n + 1, joined)
  {
    hide Manifest.Mentions, Manifest.At, Manifest.NamesOf;
    forall r ensures joined.Mentions(r) <==> merged.Mentions(r) || ms[n].Mentions(r)
             ensures merged.Mentions(r) ==> !ms[n].Mentions(r) && joined.At(r) == merged.At(r)
             ensures ms[n].Mentions(r) ==> joined.At(r) == ms[n].At(r) {
      JoinedSays(merged, ms[n], joined, r);
    }
  }

  /** There is only one union. */
  lemma UnionUnique(ms: seq<Manifest>, a: Manifest, b: Manifest)
    requires IsUnion(ms, a) && IsUnion(ms, b)
    ensures a == b
  {
    forall r: Ref ensures a.Mentions(r) <==> b.Mentions(r)
                  ensures a.Mentions(r) ==> a.At(r) == b.At(r) {
      hide Manifest.Mentions, Manifest.At;
      if a.Mentions(r) {
        var i :| 0 <= i < |ms| && ms[i].Mentions(r);
      }
      if b.Mentions(r) {
        var i :| 0 <= i < |ms| && ms[i].Mentions(r);
      }
    }
    SameTables(a, b);
  }

  lemma SameTables(a: Manifest, b: Manifest)
    requires a.apiVersion == b.apiVersion
    requires forall r: Ref :: (a.Mentions(r) <==> b.Mentions(r)) && (a.Mentions(r) ==> a.At(r) == b.At(r))
    ensures a == b
  {
    forall n: Name ensures n in a.credentials <==> n in b.credentials
                   ensures n in a.credentials ==> a.credentials[n] == b.credentials[n] {
      var r := Ref(Credentials, n);
      assert a.Mentions(r) <==> b.Mentions(r);
    }
    forall n: Name ensures n in a.assets <==> n in b.assets
                   ensures n in a.assets ==> a.assets[n] == b.assets[n] {
      var r := Ref(Assets, n);
      assert a.Mentions(r) <==> b.Mentions(r);
    }
    forall n: Name ensures n in a.access <==> n in b.access
                   ensures n in a.access ==> a.access[n] == b.access[n] {
      var r := Ref(AccessKeys, n);
      assert a.Mentions(r) <==> b.Mentions(r);
    }
    assert a.credentials == b.credentials && a.assets == b.assets && a.access == b.access;
  }

  /** `p` is a rearrangement of `n` positions. */
  ghost predicate Rearrangement(p: seq<nat>, n: nat) {
    && |p| == n
    && (forall i :: 0 <= i < n ==> p[i] < n)
    && (forall i, j :: 0 <= i < n && 0 <= j < n && i != j ==> p[i] != p[j])
    && (forall k :: 0 <= k < n ==> k in p)
  }

  function Rearranged(ms: seq<Manifest>, p: seq<nat>): seq<Manifest>
    requires |p| == |ms| && forall i :: 0 <= i < |p| ==> p[i] < |ms|
  {
    seq(|ms|, i requires 0 <= i < |ms| => ms[p[i]])
  }

  /** The order of the manifests matters neither to whether they merge nor to what they merge into. */
  lemma MergeOrderFree(ms: seq<Manifest>, p: seq<nat>, m: Manifest)
    requires Rearrangement(p, |ms|)
    ensures Mergeable(Rearranged(ms, p)) <==> Mergeable(ms)
    ensures IsUnion(Rearranged(ms, p), m) <==> IsUnion(ms, m)
  {
    hide Manifest.Mentions, Manifest.At;
    var ns := Rearranged(ms, p);
    if Mergeable(ns) {
      forall k, l, r | 0 <= k < |ms| && 0 <= l < |ms| && k != l && ms[k].Mentions(r) ensures !ms[l].Mentions(r) {
        var i := Position(ms, p, k);
        var j := Position(ms, p, l);
        assert ns[i].Mentions(r);
      }
      forall k | 0 <= k < |ms| ensures ms[k].apiVersion == API_VERSION {
        var i := Position(ms, p, k);
        assert ns[i].apiVersion == API_VERSION;
      }
    }
    if IsUnion(ns, m) {
      forall k, r | 0 <= k < |ms| && ms[k].Mentions(r) ensures m.Mentions(r) && m.At(r) == ms[k].At(r) {
        var i := Position(ms, p, k);
        assert ns[i].Mentions(r);
      }
    }
    if IsUnion(ms, m) {
      forall r | m.Mentions(r) ensures exists i :: 0 <= i < |ns| && ns[i].Mentions(r) {
        var k :| 0 <= k < |ms| && ms[k].Mentions(r);
        var i := Position(ms, p, k);
        assert ns[i].Mentions(r);
      }
    }
  }

  lemma Position(ms: seq<Manifest>, p: seq<nat>, k: nat) returns (i: nat)
    requires Rearrangement(p, |ms|) && k < |ms|
    ensures i < |ms| && p[i] == k && Rearranged(ms, p)[i] == ms[k]
  {
    assert k in p;
    i :| i < |p| && p[i] == k;
  }

  // ---------- Reading material ----------

  /** What the host can supply: files, environment variables, the pairs of private key and
      passphrase that decode, and the public keys that base64 texts encode. */
  datatype Host = Host(files: map<string, string>, env: map<string, string>,
                       privateKeys: set<(string, Option<string>)>, blobs: map<string, PublicKey>)

  function ReadSecret(source: SecretSource, host: Host): Result<string, ErrorCode> {
    match source
    case SecretSource(Some(file), None, None) =>
      if file in host.files then Ok(host.files[file]) else Err(SecretUnavailable)
    case SecretSource(None, Some(variable), None) =>
      if Text.Trim(variable) == [] then Err(InvalidSecretSource)
      else if variable in host.env then Ok(host.env[variable]) else Err(SecretUnavailable)
    case SecretSource(None, None, Some(value)) => Ok(value)
    case _ => Err(InvalidSecretSource)
  }

  function OptionalSecret(source: Option<SecretSource>, host: Host): Result<Option<string>, ErrorCode> {
    if source == None then Ok(None)
    else
      var text :- ReadSecret(source.value, host);
      Ok(Some(text))
  }

  predicate Alphanumeric(c: char) {
    'a' <= c <= 'z' || 'A' <= c <= 'Z' || '0' <= c <= '9'
  }

  predicate ValidName(name: Name) {
    && name != [] && |name| <= 128 && Alphanumeric(name[0])
    && forall c | c in name[1..] :: Alphanumeric(c) || c == '-' || c == '_' || c == '.'
  }

  function OptionalText(value: Option<string>): Option<string> {
    if value == None then None else Text.NonEmpty(value.value)
  }

  function ResolveCredential(d: CredentialDeclaration, host: Host): Result<Decl, ErrorCode> {
    if d.absent then
      if d.authType == None && d.username == None && d.password == None && d.privateKey == None && d.passphrase == None
      then Ok(Absent) else Err(ApplyFailed)
    else if d.authType == None || OptionalText(d.username) == None then Err(ApplyFailed)
    else
      var username := OptionalText(d.username).value;
      match d.authType.value
      case Password =>
        if d.privateKey.Some? || d.passphrase.Some? then Err(InvalidCredentialMaterial)
        else if d.password == None then Err(ApplyFailed)
        else
          var password :- ReadSecret(d.password.value, host);
          if password == [] then Err(InvalidCredentialMaterial)
          else Ok(Present(CredentialSpec(Password, username, Some(password), None, None)))
      case SshKey =>
        if d.password.Some? then Err(InvalidCredentialMaterial)
        else
          var passphrase :- OptionalSecret(d.passphrase, host);
          if d.privateKey == None then Err(ApplyFailed)
          else
            var privateKey :- ReadSecret(d.privateKey.value, host);
            if (privateKey, passphrase) !in host.privateKeys then Err(InvalidCredentialMaterial)
            else Ok(Present(CredentialSpec(SshKey, username, None, Some(privateKey), passphrase)))
  }

  function ResolveAsset(d: AssetDeclaration): Result<Decl, ErrorCode> {
    if d.absent then
      if d.protocol == None && d.host == None && d.port == None && d.displayName == None && d.description == None
         && d.credential == None
      then Ok(Absent) else Err(ApplyFailed)
    else if d.protocol == None || OptionalText(d.host) == None || d.port == None || d.port.value == 0 then Err(ApplyFailed)
    else if d.credential.Some? && !ValidName(d.credential.value) then Err(InvalidResourceName)
    else if d.protocol.value == Tcp && d.credential.Some? then Err(ApplyFailed)
    else Ok(Present(AssetSpec(d.protocol.value, OptionalText(d.host).value, d.port.value, OptionalText(d.displayName),
                              OptionalText(d.description), d.credential)))
  }

  /** The leading part of a text up to white space. */
  function Word(s: string): (w: string)
    ensures |w| <= |s|
  {
    if s == [] || Text.IsSpace(s[0]) then [] else [s[0]] + Word(s[1..])
  }

  /** An OpenSSH public key: the key type, then the key in base64, then anything. */
  function ParsePublicKey(text: string, host: Host): Result<PublicKey, ErrorCode> {
    var start := Text.TrimStart(text);
    var keyType := Word(start);
    var blob := Word(Text.TrimStart(start[|keyType|..]));
    if keyType == [] || blob == [] || blob !in host.blobs || host.blobs[blob].algorithm != keyType
    then Err(InvalidCredentialMaterial)
    else Ok(host.blobs[blob])
  }

  /** The first thing wrong with the first `n` names of an allowlist. */
  function AllowlistError(names: seq<Name>, n: nat): Option<ErrorCode>
    requires n <= |names|
  {
    if n == 0 then None
    else if AllowlistError(names, n - 1).Some? then AllowlistError(names, n - 1)
    else if !ValidName(names[n - 1]) then Some(InvalidResourceName)
    else if names[n - 1] in names[..n - 1] then Some(DuplicateResource)
    else None
  }

  predicate GoodAllowlist(names: seq<Name>, n: nat)
    requires n <= |names|
  {
    (forall i :: 0 <= i < n ==> ValidName(names[i])) && forall i, j :: 0 <= i < j < n ==> names[i] != names[j]
  }

  /** An allowlist passes exactly when its names are valid and distinct. */
  lemma {:induction false} AllowlistPasses(names: seq<Name>, n: nat)
    requires n <= |names|
    ensures AllowlistError(names, n) == None <==> GoodAllowlist(names, n)
  {
    hide ValidName;
    if n > 0 { AllowlistPasses(names, n - 1); }
  }

  lemma {:induction false} AllowlistErrorStays(names: seq<Name>, i: nat, n: nat)
    requires i <= n <= |names| && AllowlistError(names, i).Some?
    ensures AllowlistError(names, n) == AllowlistError(names, i)
    decreases n - i
  {
    if i < n { AllowlistErrorStays(names, i + 1, n); }
  }

  function Allowed(d: AccessDeclaration): Option<set<Name>> {
    if d.assets == None then None else Some(set n | n in d.assets.value)
  }

  function ResolvedAccess(d: AccessDeclaration, host: Host): Result<Decl, ErrorCode> {
    if d.absent then
      if d.publicKey == None && d.enabled == None && d.assets == None then Ok(Absent) else Err(ApplyFailed)
    else if d.publicKey == None then Err(ApplyFailed)
    else
      var text :- ReadSecret(d.publicKey.value, host);
      var publicKey :- ParsePublicKey(text, host);
      if d.assets.Some? && AllowlistError(d.assets.value, |d.assets.value|).Some?
      then Err(AllowlistError(d.assets.value, |d.assets.value|).value)
      else Ok(Present(AccessSpec(publicKey, d.enabled != Some(false), Allowed(d))))
  }

  method ResolveAccess(d: AccessDeclaration, host: Host) returns (r: Result<Decl, ErrorCode>)
    ensures r == ResolvedAccess(d, host)
  {
    if d.absent {
      return if d.publicKey == None && d.enabled == None && d.assets == None then Ok(Absent) else Err(ApplyFailed);
    }
    if d.publicKey == None { return Err(ApplyFailed); }
    var text :- ReadSecret(d.publicKey.value, host);
    var publicKey :- ParsePublicKey(text, host);
    var assets := None;
    if d.assets.Some? {
      var names := d.assets.value;
      var seen, normalized := {}, [];
      for i := 0 to |names|
        invariant AllowlistError(names, i) == None
        invariant normalized == names[..i] && forall n :: n in seen <==> n in names[..i]
      {
        if !ValidName(names[i]) {
          AllowlistErrorStays(names, i + 1, |names|);
          return Err(InvalidResourceName);
        }
        if names[i] in seen {
          AllowlistErrorStays(names, i + 1, |names|);
          return Err(DuplicateResource);
        }
        seen := seen + {names[i]};
        normalized := normalized + [names[i]];
      }
      assert normalized == names;
      assets := Some(set n | n in normalized);
    }
    return Ok(Present(AccessSpec(publicKey, d.enabled != Some(false), assets)));
  }

  function ResolvedDeclaration(d: Declaration, host: Host): Result<Decl, ErrorCode> {
    match d
    case CredentialDeclaration(_, _, _, _, _, _) => ResolveCredential(d, host)
    case AssetDeclaration(_, _, _, _, _, _, _) => ResolveAsset(d)
    case AccessDeclaration(_, _, _, _) => ResolvedAccess(d, host)
  }

  /** The declaration of one resource with its name checked and its material read. */
  function ResolvedAt(m: Manifest, host: Host, r: Ref): Result<Decl, ErrorCode>
    requires m.Mentions(r)
  {
    if !ValidName(r.name) then Err(InvalidResourceName) else ResolvedDeclaration(m.At(r).value, host)
  }

  predicate Resolvable(m: Manifest, host: Host) {
    m.apiVersion == API_VERSION && forall r | r in m.Refs() :: ResolvedAt(m, host, r).Ok?
  }

  function DeclsOf(m: Manifest, host: Host): map<Ref, Decl>
    requires Resolvable(m, host)
  {
    map r | r in m.Refs() :: ResolvedAt(m, host, r).value
  }

  lemma RefsMentioned(m: Manifest)
    ensures forall r :: r in m.Refs() <==> m.Mentions(r)
  {
  }

  /** Resolves the resources of one kind and adds them to those resolved before. */
  method ResolveKind(m: Manifest, host: Host, kind: Kind, before: map<Ref, Decl>) returns (r: Result<map<Ref, Decl>, ErrorCode>)
    ensures r.Ok? <==> forall q: Ref :: q.kind == kind && m.Mentions(q) ==> ResolvedAt(m, host, q).Ok?
    ensures r.Ok? ==>
      && (forall q :: q in r.value <==> q in before || (q.kind == kind && m.Mentions(q)))
      && (forall q :: q in r.value ==>
            if q.kind == kind && m.Mentions(q) then ResolvedAt(m, host, q) == Ok(r.value[q]) else r.value[q] == before[q])
    ensures r.Err? ==> exists q :: m.Mentions(q) && q.kind == kind && ResolvedAt(m, host, q) == Err(r.error)
  {
    hide ResolveCredential, ResolveAsset, ResolvedAccess, ValidName;
    var decls, todo := before, m.NamesOf(kind);
    while todo != {}
      invariant todo <= m.NamesOf(kind)
      invariant forall n :: n in m.NamesOf(kind) - todo ==> ResolvedAt(m, host, Ref(kind, n)).Ok?
      invariant forall q :: q in decls <==> q in before || (q.kind == kind && q.name in m.NamesOf(kind) - todo)
      invariant forall q :: q in decls ==>
        if q.kind == kind && q.name in m.NamesOf(kind) - todo then ResolvedAt(m, host, q) == Ok(decls[q]) else decls[q] == before[q]
    {
      var n :| n in todo;
      var q := Ref(kind, n);
      assert m.Mentions(q);
      if !ValidName(n) {
        assert ResolvedAt(m, host, q) == Err(InvalidResourceName);
        return Err(InvalidResourceName);
      }
      var resolved;
      match kind {
        case Credentials => resolved := ResolveCredential(m.credentials[n], host);
        case Assets => resolved := ResolveAsset(m.assets[n]);
        case AccessKeys => resolved := ResolveAccess(m.access[n], host);
      }
      assert resolved == ResolvedAt(m, host, q);
      if resolved.Err? { return Err(resolved.error); }
      decls := decls[q := resolved.value];
      todo := todo - {n};
    }
    return Ok(decls);
  }

  /** Why a manifest does not resolve. */
  ghost predicate Unresolved(m: Manifest, host: Host, error: ErrorCode) {
    if m.apiVersion != API_VERSION then error == UnsupportedApiVersion
    else exists q :: m.Mentions(q) && ResolvedAt(m, host, q) == Err(error)
  }

  /** Reads all material: credentials, then assets, then access keys. */
  method ResolveMaterial(m: Manifest, host: Host) returns (r: Result<map<Ref, Decl>, ErrorCode>)
    ensures r.Ok? <==> Resolvable(m, host)
    ensures r.Ok? ==> r.value == DeclsOf(m, host)
    ensures r.Err? ==> Unresolved(m, host, r.error)
  {
    hide ResolvedAt, Manifest.Mentions, Manifest.Refs;
    RefsMentioned(m);
    if m.apiVersion != API_VERSION { return Err(UnsupportedApiVersion); }
    var credentials := ResolveKind(m, host, Credentials, map[]);
    if credentials.Err? { return credentials; }
    var assets := ResolveKind(m, host, Assets, credentials.value);
    if assets.Err? { return assets; }
    r := ResolveKind(m, host, AccessKeys, assets.value);
  }

  /** The manifest resolves, and every reference in it is to a resource it declares present. */
  predicate ValidOffline(m: Manifest, host: Host) {
    Resolvable(m, host) && AllResolve(DeclsOf(m, host), false, {})
  }

  method ValidateOffline(m: Manifest, host: Host) returns (r: Result<(), ErrorCode>)
    ensures r.Ok? <==> ValidOffline(m, host)
    ensures r.Err? && Resolvable(m, host) ==> r.error == UnknownReference
  {
    var decls :- ResolveMaterial(m, host);
    var ok := ValidateReferences(decls, false, {});
    return if ok then Ok(()) else Err(UnknownReference);
  }

  // ---------- What resolving guarantees the apply ----------

  lemma DeclarationSpecOk(m: Manifest, host: Host, r: Ref)
    requires m.Mentions(r) && ResolvedAt(m, host, r).Ok? && ResolvedAt(m, host, r).value.Present?
    ensures var spec := ResolvedAt(m, host, r).value.spec;
      && SpecOk(r, spec)
      && (spec.AccessSpec? && spec.assets.Some? ==> forall n :: n in spec.assets.value ==> ValidName(n))
  {
    hide ValidName, ReadSecret, ParsePublicKey, OptionalText, AllowlistError;
    var d := m.At(r).value;
    if d.AccessDeclaration? && d.assets.Some? { AllowlistPasses(d.assets.value, |d.assets.value|); }
  }

  /** Whatever resolves is fit to be applied. */
  lemma ResolvableResolved(m: Manifest, host: Host, source: SourceId, prune: bool)
    requires Resolvable(m, host)
    ensures Resolved(Request(source, DeclsOf(m, host), prune))
  {
    hide ResolvedAt, SpecOk;
    RefsMentioned(m);
    forall r | r in DeclsOf(m, host) && DeclsOf(m, host)[r].Present? ensures SpecOk(r, DeclsOf(m, host)[r].spec) {
      DeclarationSpecOk(m, host, r);
    }
  }

  /** What validates offline is fit to be applied and stands on its own. */
  lemma OfflineIsSelfContained(m: Manifest, host: Host, source: SourceId, prune: bool)
    requires ValidOffline(m, host)
    ensures var q := Request(source, DeclsOf(m, host), prune); Resolved(q) && SelfContained(q)
  {
    hide Resolvable, DeclsOf, AllResolve, Resolved;
    ResolvableResolved(m, host, source, prune);
  }

  // ---------- Merging and resolving ----------

  /** A merged manifest resolves exactly when each of its parts does, to what the parts resolve to. */
  lemma MergedResolves(ms: seq<Manifest>, m: Manifest, host: Host)
    requires Mergeable(ms) && IsUnion(ms, m)
    ensures Resolvable(m, host) <==> forall i :: 0 <= i < |ms| ==> Resolvable(ms[i], host)
    ensures Resolvable(m, host) ==> forall i, r :: 0 <= i < |ms| && r in DeclsOf(ms[i], host) ==>
      r in DeclsOf(m, host) && DeclsOf(m, host)[r] == DeclsOf(ms[i], host)[r]
    ensures Resolvable(m, host) ==> forall r :: r in DeclsOf(m, host) ==>
      exists i :: 0 <= i < |ms| && r in DeclsOf(ms[i], host)
  {
    hide ResolvedAt, Manifest.Mentions, Manifest.At, Manifest.Refs;
    RefsMentioned(m);
    forall i, r | 0 <= i < |ms| && r in ms[i].Refs()
      ensures r in m.Refs() && m.Mentions(r) && ms[i].Mentions(r) && ResolvedAt(ms[i], host, r) == ResolvedAt(m, host, r)
    {
      RefsMentioned(ms[i]);
      PartSays(ms, m, host, i, r);
    }
    forall r | r in m.Refs() ensures exists i :: 0 <= i < |ms| && r in ms[i].Refs() {
      var i :| 0 <= i < |ms| && ms[i].Mentions(r);
      RefsMentioned(ms[i]);
    }
    if Resolvable(m, host) {
      forall i | 0 <= i < |ms| ensures Resolvable(ms[i], host) {
        assert ms[i].apiVersion == API_VERSION;
        forall r | r in ms[i].Refs() ensures ms[i].Mentions(r) && ResolvedAt(ms[i], host, r).Ok? { assert r in m.Refs(); }
      }
    }
    if forall i :: 0 <= i < |ms| ==> Resolvable(ms[i], host) {
      forall r | r in m.Refs() ensures m.Mentions(r) && ResolvedAt(m, host, r).Ok? {
        var i :| 0 <= i < |ms| && r in ms[i].Refs();
        assert Resolvable(ms[i], host);
      }
    }
  }

  lemma PartSays(ms: seq<Manifest>, m: Manifest, host: Host, i: nat, r: Ref)
    requires IsUnion(ms, m) && i < |ms| && ms[i].Mentions(r)
    ensures m.Mentions(r) && ResolvedAt(ms[i], host, r) == ResolvedAt(m, host, r)
  {
    hide Manifest.Mentions, Manifest.At, ResolvedDeclaration, ValidName;
  }

  /** Files that are each valid offline are valid offline together. */
  lemma MergeKeepsOffline(ms: seq<Manifest>, m: Manifest, host: Host)
    requires Mergeable(ms) && IsUnion(ms, m)
    requires forall i :: 0 <= i < |ms| ==> ValidOffline(ms[i], host)
    ensures ValidOffline(m, host)
  {
    hide Resolvable, DeclsOf, IsUnion, Mergeable;
    MergedResolves(ms, m, host);
    var decls := DeclsOf(m, host);
    forall r | r in decls && decls[r].Present? ensures RefsResolve(decls, false, {}, decls[r].spec) {
      var i :| 0 <= i < |ms| && r in DeclsOf(ms[i], host);
      assert ValidOffline(ms[i], host);
      assert RefsResolve(DeclsOf(ms[i], host), false, {}, decls[r].spec);
    }
  }

  /** The scope is valid offline, though one of its files is not. */
  ghost predicate Leaning(ms: seq<Manifest>, m: Manifest, host: Host) {
    Mergeable(ms) && IsUnion(ms, m) && ValidOffline(m, host) && exists i :: 0 <= i < |ms| && !ValidOffline(ms[i], host)
  }

  const LEANING_ASSET: AssetDeclaration := AssetDeclaration(false, Some(Ssh), Some("h"), Some(22), None, None, Some("c"))
  const LEANT_ON: CredentialDeclaration :=
    CredentialDeclaration(false, Some(Password), Some("u"), Some(SecretSource(None, None, Some("p"))), None, None)

  lemma ExampleResolves(host: Host)
    ensures ResolveAsset(LEANING_ASSET) == Ok(Present(AssetSpec(Ssh, "h", 22, None, None, Some("c"))))
    ensures ResolveCredential(LEANT_ON, host) == Ok(Present(CredentialSpec(Password, "u", Some("p"), None, None)))
    ensures ValidName("a") && ValidName("c")
  {
  }

  function ExampleManifest(credential: bool, asset: bool): Manifest {
    Manifest(API_VERSION, if credential then map["c" := LEANT_ON] else map[],
             if asset then map["a" := LEANING_ASSET] else map[], map[])
  }

  lemma ExampleValidity(host: Host, credential: bool)
    ensures ValidOffline(ExampleManifest(credential, true), host) <==> credential
  {
    hide ResolveAsset, ResolveCredential, ValidName, AllResolve;
    ExampleResolves(host);
    var m := ExampleManifest(credential, true);
    var a, c := Ref(Assets, "a"), Ref(Credentials, "c");
    assert m.Refs() == if credential then {a, c} else {a};
    assert ResolvedAt(m, host, a) == ResolveAsset(LEANING_ASSET);
    assert credential ==> ResolvedAt(m, host, c) == ResolveCredential(LEANT_ON, host);
    ExampleReferences(DeclsOf(m, host), a, c, credential);
  }

  /** Not the other way around: a file may lean on another of its scope. */
  lemma FilesMayLeanOnEachOther()
    ensures exists ms, m, host :: Leaning(ms, m, host)
  {
    hide ValidOffline, Mergeable, IsUnion;
    var host := Host(map[], map[], {}, map[]);
    var leaning, other, m := ExampleManifest(false, true), ExampleManifest(true, false), ExampleManifest(true, true);
    var ms := [leaning, other];
    var a, c := Ref(Assets, "a"), Ref(Credentials, "c");
    assert m.Refs() == {a, c} && leaning.Refs() == {a} && other.Refs() == {c};
    ExampleMerges(ms, m, a, c);
    ExampleValidity(host, true);
    ExampleValidity(host, false);
    assert ms[0] == leaning;
    assert Leaning(ms, m, host);
  }

  lemma ExampleReferences(decls: map<Ref, Decl>, a: Ref, c: Ref, both: bool)
    requires a == Ref(Assets, "a") && c == Ref(Credentials, "c")
    requires decls.Keys == if both then {a, c} else {a}
    requires decls[a] == Present(AssetSpec(Ssh, "h", 22, None, None, Some("c")))
    requires both ==> decls[c] == Present(CredentialSpec(Password, "u", Some("p"), None, None))
    ensures AllResolve(decls, false, {}) <==> both
  {
    assert RefsResolve(decls, false, {}, decls[a].spec) <==> both;
  }

  lemma ExampleMerges(ms: seq<Manifest>, m: Manifest, a: Ref, c: Ref)
    requires |ms| == 2 && a != c && ms[0].Refs() == {a} && ms[1].Refs() == {c} && m.Refs() == {a, c}
    requires forall i :: 0 <= i < |ms| ==> ms[i].apiVersion == API_VERSION
    requires m.apiVersion == API_VERSION && m.At(a) == ms[0].At(a) && m.At(c) == ms[1].At(c)
    ensures Mergeable(ms) && IsUnion(ms, m)
  {
    hide Manifest.Refs, Manifest.At, Manifest.Mentions;
    RefsMentioned(ms[0]);
    RefsMentioned(ms[1]);
    RefsMentioned(m);
  }
}
