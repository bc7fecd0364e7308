/** What each declaration of a manifest has to say, and what it is resolved to. */
module ManifestLaws {
  import opened Wrappers
  import opened Names
  import opened Schema
  import opened Decisions
  import opened Manifests
  import Catalogs
  import Text

  // ---------- Names and secrets ----------

  /** A resource name is what would do for a source name, led by a letter or digit. */
  lemma NamesAreSourceNames(name: Name)
    ensures ValidName(name) <==> Catalogs.SourceIdOk(name) && Alphanumeric(name[0])
  {
    if name != [] { assert forall c :: c in name <==> c == name[0] || c in name[1..]; }
  }

  /** A secret is read from the one place that is set. With none or several set, or a blank variable name,
      the source is at fault; otherwise the place is. */
  lemma SecretExactly(source: SecretSource, host: Host)
    ensures var SecretSource(file, env, inline) := source;
      match ReadSecret(source, host)
      case Ok(text) =>
        || (file.Some? && env == None && inline == None && file.value in host.files && text == host.files[file.value])
        || (file == None && env.Some? && inline == None && env.value in host.env && text == host.env[env.value] && Text.Trim(env.value) != [])
        || (file == None && env == None && inline == Some(text))
      case Err(error) =>
        if file.Some? && env == None && inline == None then error == SecretUnavailable && file.value !in host.files
        else if file == None && env.Some? && inline == None && Text.Trim(env.value) != []
        then error == SecretUnavailable && env.value !in host.env
        else error == InvalidSecretSource && !(file == None && env == None && inline.Some?)
  {
    hide Text.Trim;
  }

  /** A text that is there and not blank, trimmed. */
  predicate TrimmedText(given: Option<string>, taken: string) {
    given.Some? && taken == Text.Trim(given.value) && taken != []
  }

  /** A text that may be missing or blank, and then is not taken. */
  predicate OptionallyTrimmed(given: Option<string>, taken: Option<string>) {
    if given == None || Text.Trim(given.value) == [] then taken == None else taken == Some(Text.Trim(given.value))
  }

  // ---------- Assets ----------

  /** Absent assets say nothing else; others need a protocol, a host and a port, and only ssh ones may name
      a credential. Each field goes to its own place. */
  lemma AssetResolves(d: AssetDeclaration)
    ensures ResolveAsset(d) == Ok(Absent) <==>
      d.absent && d.protocol == None && d.host == None && d.port == None && d.displayName == None && d.description == None
      && d.credential == None
    ensures ResolveAsset(d).Ok? && ResolveAsset(d).value.Present? <==>
      && !d.absent && d.protocol.Some? && d.host.Some? && Text.Trim(d.host.value) != [] && d.port.Some? && 1 <= d.port.value <= 65535
      && (d.credential.Some? ==> ValidName(d.credential.value) && d.protocol == Some(Ssh))
    ensures ResolveAsset(d).Ok? && ResolveAsset(d).value.Present? ==>
      var spec := ResolveAsset(d).value.spec;
      && spec.AssetSpec? && d.protocol == Some(spec.protocol) && TrimmedText(d.host, spec.host)
      && d.port.Some? && spec.port == d.port.value && OptionallyTrimmed(d.displayName, spec.displayName)
      && OptionallyTrimmed(d.description, spec.description) && spec.credential == d.credential
    ensures ResolveAsset(d).Err? ==> ResolveAsset(d).error in {ApplyFailed, InvalidResourceName}
    ensures ResolveAsset(d) == Err(InvalidResourceName) ==> d.credential.Some? && !ValidName(d.credential.value)
  {
    hide ValidName, Text.Trim;
  }

  // ---------- Access keys ----------

  /** A public key text is two words, whatever follows; the second encodes a key of the type the first
      names. */
  lemma PublicKeyWords(before: string, keyType: string, between: string, blob: string, after: string, host: Host)
    requires Spaces(before) && Spaces(between) && between != [] && Unspaced(keyType) && Unspaced(blob) && keyType != [] && blob != []
    requires after == [] || Text.IsSpace(after[0])
    ensures ParsePublicKey(before + keyType + between + blob + after, host) ==
      if blob in host.blobs && host.blobs[blob].algorithm == keyType then Ok(host.blobs[blob]) else Err(InvalidCredentialMaterial)
  {
    hide Text.IsSpace, Text.TrimStart, Word;
    var rest := between + blob + after;
    var text := before + keyType + between + blob + after;
    assert text == before + (keyType + rest);
    SpacesDropped(before, keyType + rest);
    WordTaken(keyType, rest);
    var start := Text.TrimStart(text);
    assert start == keyType + rest && start[|keyType|..] == between + (blob + after);
    SpacesDropped(between, blob + after);
    WordTaken(blob, after);
  }

  /** A text of one word, or of none, is no public key. */
  lemma OneWordIsNoKey(before: string, word: string, after: string, host: Host)
    requires Spaces(before) && Unspaced(word) && Spaces(after)
    ensures ParsePublicKey(before + word + after, host) == Err(InvalidCredentialMaterial)
  {
    var text := before + word + after;
    assert text == before + (word + after);
    if word != [] {
      SpacesDropped(before, word + after);
      WordTaken(word, after);
      assert Text.TrimStart(text)[|word|..] == after;
      NothingLeft(after);
    } else {
      NothingLeft(text);
    }
  }

  predicate Spaces(s: string) {
    forall i :: 0 <= i < |s| ==> Text.IsSpace(s[i])
  }

  predicate Unspaced(s: string) {
    forall i :: 0 <= i < |s| ==> !Text.IsSpace(s[i])
  }

  lemma {:induction false} SpacesDropped(spaces: string, s: string)
    requires Spaces(spaces) && s != [] && !Text.IsSpace(s[0])
    ensures Text.TrimStart(spaces + s) == s
  {
    if spaces == [] {
      assert spaces + s == s;
    } else {
      assert (spaces + s)[1..] == spaces[1..] + s;
      SpacesDropped(spaces[1..], s);
    }
  }

  lemma {:induction false} NothingLeft(s: string)
    requires Spaces(s)
    ensures Text.TrimStart(s) == []
  {
    if s != [] { NothingLeft(s[1..]); }
  }

  lemma {:induction false} WordTaken(word: string, rest: string)
    requires Unspaced(word) && (rest == [] || Text.IsSpace(rest[0]))
    ensures Word(word + rest) == word
  {
    if word == [] {
      assert word + rest == rest;
    } else {
      assert (word + rest)[1..] == word[1..] + rest;
      WordTaken(word[1..], rest);
    }
  }

  predicate FirstBad(names: seq<Name>, i: nat, error: ErrorCode)
    requires i < |names|
  {
    && GoodAllowlist(names, i) && !GoodAllowlist(names, i + 1)
    && error == if ValidName(names[i]) then DuplicateResource else InvalidResourceName
  }

  /** An allowlist is refused for its first bad name: because it is no name, or else because it repeats one. */
  lemma {:induction false} AllowlistRefused(names: seq<Name>, n: nat)
    requires n <= |names| && AllowlistError(names, n).Some?
    ensures exists i :: 0 <= i < n && FirstBad(names, i, AllowlistError(names, n).value)
  {
    hide ValidName;
    AllowlistPasses(names, n - 1);
    if AllowlistError(names, n - 1).Some? {
      AllowlistRefused(names, n - 1);
    } else {
      AllowlistPasses(names, n);
      assert FirstBad(names, n - 1, AllowlistError(names, n).value);
    }
  }

  /** Absent keys say nothing else; others need a public key, are enabled unless they say otherwise, and
      are restricted to an allowlist of valid, distinct names if they have one. */
  lemma AccessResolves(d: AccessDeclaration, host: Host)
    ensures ResolvedAccess(d, host) == Ok(Absent) <==> d.absent && d.publicKey == None && d.enabled == None && d.assets == None
    ensures ResolvedAccess(d, host).Ok? && ResolvedAccess(d, host).value.Present? <==>
      && !d.absent && d.publicKey.Some? && ReadSecret(d.publicKey.value, host).Ok?
      && ParsePublicKey(ReadSecret(d.publicKey.value, host).value, host).Ok?
      && (d.assets.Some? ==> GoodAllowlist(d.assets.value, |d.assets.value|))
    ensures ResolvedAccess(d, host).Ok? && ResolvedAccess(d, host).value.Present? ==>
      var spec := ResolvedAccess(d, host).value.spec;
      && spec.AccessSpec? && d.publicKey.Some? && ReadSecret(d.publicKey.value, host).Ok?
      && Ok(spec.publicKey) == ParsePublicKey(ReadSecret(d.publicKey.value, host).value, host)
      && (d.enabled == None ==> spec.enabled) && (d.enabled.Some? ==> spec.enabled == d.enabled.value)
      && (spec.assets.Some? <==> d.assets.Some?)
      && (d.assets.Some? ==> forall n :: n in spec.assets.value <==> n in d.assets.value)
  {
    hide ReadSecret, ParsePublicKey, GoodAllowlist, AllowlistError;
    if d.assets.Some? { AllowlistPasses(d.assets.value, |d.assets.value|); }
  }

  // ---------- Credentials ----------

  /** A secret that has to be there. */
  predicate ReadsTo(source: Option<SecretSource>, host: Host, text: string) {
    source.Some? && ReadSecret(source.value, host) == Ok(text)
  }

  /** Absent credentials say nothing else; others need a type and a user name. A password one has a password,
      not empty, and no key; a key one has a private key that decodes with its passphrase, and no password. */
  lemma CredentialResolves(d: CredentialDeclaration, host: Host)
    ensures ResolveCredential(d, host) == Ok(Absent) <==>
      d.absent && d.authType == None && d.username == None && d.password == None && d.privateKey == None && d.passphrase == None
    ensures ResolveCredential(d, host).Ok? && ResolveCredential(d, host).value.Present? ==>
      var spec := ResolveCredential(d, host).value.spec;
      && !d.absent && spec.CredentialSpec? && d.authType == Some(spec.authType) && TrimmedText(d.username, spec.username)
      && (spec.authType == Password ==>
            && spec.password.Some? && ReadsTo(d.password, host, spec.password.value) && spec.password.value != []
            && d.privateKey == None && d.passphrase == None && spec.privateKey == None && spec.passphrase == None)
      && (spec.authType == SshKey ==>
            && spec.privateKey.Some? && ReadsTo(d.privateKey, host, spec.privateKey.value)
            && (spec.passphrase.Some? <==> d.passphrase.Some?)
            && (spec.passphrase.Some? ==> ReadsTo(d.passphrase, host, spec.passphrase.value))
            && (spec.privateKey.value, spec.passphrase) in host.privateKeys
            && d.password == None && spec.password == None)
  {
    hide ReadSecret, Text.Trim;
  }

  /** Nothing else is refused: these declarations resolve. */
  lemma CredentialAccepted(d: CredentialDeclaration, host: Host)
    requires !d.absent && d.authType.Some? && d.username.Some? && Text.Trim(d.username.value) != []
    requires d.authType == Some(Password) ==>
      && d.password.Some? && ReadSecret(d.password.value, host).Ok? && ReadSecret(d.password.value, host).value != []
      && d.privateKey == None && d.passphrase == None
    requires d.authType == Some(SshKey) ==>
      && d.password == None && d.privateKey.Some? && ReadSecret(d.privateKey.value, host).Ok?
      && (d.passphrase.Some? ==> ReadSecret(d.passphrase.value, host).Ok?)
      && (ReadSecret(d.privateKey.value, host).value,
          if d.passphrase.Some? then Some(ReadSecret(d.passphrase.value, host).value) else None) in host.privateKeys
    ensures ResolveCredential(d, host).Ok? && ResolveCredential(d, host).value.Present?
  {
    hide ReadSecret, Text.Trim;
  }
}
