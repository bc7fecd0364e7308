/** Which assets an access key may use, and which one a lookup picks. */
module AccessScope {
  import opened Wrappers
  import opened Names
  import opened Schema
  import opened NoResurrection
  import opened Histories

  datatype Asset = Asset(id: Id, row: Row)

  function AssetRef(a: Asset): Ref {
    Ref(Assets, a.row.name)
  }

  // ---------- The four queries, each with its own joins and WHERE clause ----------

  /** Discovery: assets joined with the enabled key. */
  predicate ListSelects(db: Db, key: Id, asset: Id) {
    && Key(Assets, asset) in db.rows
    && exists k | k in db.rows ::
         && k.kind == AccessKeys && k.id == key && db.rows[k].KeyRow? && db.rows[k].enabled
         && (db.rows[k].mode == All || exists g | g in db.allow :: g.key == k.id && g.asset == asset)
  }

  /** Direct login: the same join, and the target is the asset's name or host. */
  predicate DirectSelects(db: Db, key: Id, target: string, asset: Id) {
    && Key(Assets, asset) in db.rows && db.rows[Key(Assets, asset)].AssetRow?
    && (exists k | k in db.rows ::
          && k.kind == AccessKeys && k.id == key && db.rows[k].KeyRow? && db.rows[k].enabled
          && (db.rows[k].mode == All || exists g | g in db.allow :: g.key == k.id && g.asset == asset))
    && (db.rows[Key(Assets, asset)].name == target || db.rows[Key(Assets, asset)].host == target)
  }

  /** The gate in front of managed sessions and proxying: keys joined with the asset. */
  predicate KeyCanAccessAsset(db: Db, key: Id, asset: Id) {
    exists k | k in db.rows ::
      && k.kind == AccessKeys && db.rows[k].KeyRow?
      && (exists a | a in db.rows ::
            && a.kind == Assets && a.id == asset && k.id == key && db.rows[k].enabled
            && (db.rows[k].mode == All || exists g | g in db.allow :: g.key == k.id && g.asset == a.id))
  }

  /** Proxying: the join of discovery, and the endpoint or the name without ".hop" is asked for. */
  predicate ProxySelects(db: Db, key: Id, host: string, port: int, asset: Id) {
    && Key(Assets, asset) in db.rows && db.rows[Key(Assets, asset)].AssetRow?
    && (exists k | k in db.rows ::
          && k.kind == AccessKeys && k.id == key && db.rows[k].KeyRow? && db.rows[k].enabled
          && (db.rows[k].mode == All || exists g | g in db.allow :: g.key == k.id && g.asset == asset))
    && var row := db.rows[Key(Assets, asset)];
       (row.host == host && row.port == port) || row.name == StripHop(host)
  }

  /** The scope of a key, read off its primary key and its grants. */
  predicate InScope(db: Db, key: Id, asset: Id) {
    var k := Key(AccessKeys, key);
    && k in db.rows && db.rows[k].KeyRow? && db.rows[k].enabled
    && Key(Assets, asset) in db.rows
    && (db.rows[k].mode == All || Grant(key, asset) in db.allow)
  }

  lemma ListInScope(db: Db, key: Id, asset: Id)
    ensures ListSelects(db, key, asset) <==> InScope(db, key, asset)
  {
    if ListSelects(db, key, asset) {
      var k :| k in db.rows && k.kind == AccessKeys && k.id == key && db.rows[k].KeyRow? && db.rows[k].enabled
        && (db.rows[k].mode == All || exists g | g in db.allow :: g.key == k.id && g.asset == asset);
      assert k == Key(AccessKeys, key);
    }
  }

  lemma GateInScope(db: Db, key: Id, asset: Id)
    ensures KeyCanAccessAsset(db, key, asset) <==> InScope(db, key, asset)
  {
    if InScope(db, key, asset) {
      var k, a := Key(AccessKeys, key), Key(Assets, asset);
      assert a in db.rows && a.kind == Assets && a.id == asset && k.id == key && db.rows[k].enabled;
    }
  }

  /** One scope: what a lookup selects is what discovery lists and matches, and what discovery lists is
      what the gate lets through. */
  lemma OneScope(db: Db, key: Id, asset: Id)
    requires Valid(db)
    ensures ListSelects(db, key, asset) <==> KeyCanAccessAsset(db, key, asset)
    ensures forall l :: Selects(db, key, l, asset) <==>
      ListSelects(db, key, asset) && Matches(l, db.rows[Key(Assets, asset)])
  {
    ListInScope(db, key, asset);
    GateInScope(db, key, asset);
    if Key(Assets, asset) in db.rows { assert RowOk(Key(Assets, asset), db.rows[Key(Assets, asset)]); }
  }

  predicate Selects(db: Db, key: Id, l: Lookup, asset: Id) {
    match l
    case Direct(target) => DirectSelects(db, key, target, asset)
    case Proxy(host, port) => ProxySelects(db, key, host, port, asset)
  }

  /** The assets discovery lists, before any order is put on them. */
  function ScopeOf(db: Db, key: Id): set<Asset> {
    set k | k in db.rows && k.kind == Assets && ListSelects(db, key, k.id) :: Asset(k.id, db.rows[k])
  }

  /** Discovery: everything the gate lets the key use, by name. */
  method ListAssetsForKey(db: Db, key: Id) returns (assets: seq<Asset>)
    requires Valid(db)
    ensures StrictlySorted(AssetRef, assets)
    ensures forall a :: a in assets <==>
      Key(Assets, a.id) in db.rows && a.row == db.rows[Key(Assets, a.id)] && KeyCanAccessAsset(db, key, a.id)
  {
    hide Valid, ListSelects, KeyCanAccessAsset, Selects;
    assets := [];
    var rest := ScopeOf(db, key);
    while rest != {}
      invariant rest <= ScopeOf(db, key)
      invariant StrictlySorted(AssetRef, assets)
      invariant forall a :: a in multiset(assets) <==> a in ScopeOf(db, key) - rest
    {
      var a :| a in rest;
      forall b | b in assets ensures AssetRef(b) != AssetRef(a) {
        assert b in multiset(assets);
        DistinctNames(db, key, a, b);
      }
      assets := Insert(AssetRef, a, assets);
      rest := rest - {a};
    }
    assert forall a :: a in assets <==> a in multiset(assets);
    forall a: Asset ensures ListSelects(db, key, a.id) <==> KeyCanAccessAsset(db, key, a.id) { OneScope(db, key, a.id); }
  }

  lemma DistinctNames(db: Db, key: Id, a: Asset, b: Asset)
    requires Valid(db) && a in ScopeOf(db, key) && b in ScopeOf(db, key) && a != b
    ensures a.row.name != b.row.name
  {
    assert !Clash(Key(Assets, a.id), a.row, Key(Assets, b.id), b.row);
  }

  // ---------- Lookups ----------

  /** A login target by name or host, or a proxied endpoint by name or by host and port. */
  datatype Lookup = Direct(target: string) | Proxy(host: string, port: int)

  /** Removes one ".hop" suffix. */
  function StripHop(host: string): string {
    if |host| >= 4 && host[|host| - 4..] == ".hop" then host[..|host| - 4] else host
  }

  predicate Matches(l: Lookup, row: Row) {
    row.AssetRow? &&
    match l
    case Direct(target) => row.name == target || row.host == target
    case Proxy(host, port) => (row.host == host && row.port == port) || row.name == StripHop(host)
  }

  /** Login prefers a name to a host; proxying prefers an endpoint to a name. */
  predicate Preferred(l: Lookup, row: Row) {
    row.AssetRow? &&
    match l
    case Direct(target) => row.name == target
    case Proxy(host, port) => row.host == host && row.port == port
  }

  /** The stated order: preferred matches first, then by name. */
  predicate Before(l: Lookup, a: Row, b: Row) {
    if Preferred(l, a) == Preferred(l, b) then NameLess(a.name, b.name) else Preferred(l, a)
  }

  predicate Candidate(db: Db, key: Id, l: Lookup, a: Asset) {
    Key(Assets, a.id) in db.rows && a.row == db.rows[Key(Assets, a.id)] && Selects(db, key, l, a.id)
  }

  /** What a lookup answers: the least candidate, if there is a candidate. */
  ghost predicate Answers(db: Db, key: Id, l: Lookup, found: Option<Asset>) {
    && (found == None <==> forall a :: !Candidate(db, key, l, a))
    && (found.Some? ==> Candidate(db, key, l, found.value))
    && (found.Some? ==> forall a :: Candidate(db, key, l, a) && a != found.value ==> Before(l, found.value.row, a.row))
  }

  /** The best match, which the gate lets through; none if and only if nothing discovered matches. */
  method FindAssetForKey(db: Db, key: Id, l: Lookup) returns (found: Option<Asset>)
    requires Valid(db)
    ensures Answers(db, key, l, found)
    ensures found.Some? ==> KeyCanAccessAsset(db, key, found.value.id)
    ensures found == None <==> forall a :: a in ScopeOf(db, key) ==> !Matches(l, a.row)
  {
    hide Valid, Selects, ListSelects, KeyCanAccessAsset, Matches, Before;
    found := None;
    var all := set k | k in db.rows && k.kind == Assets && Selects(db, key, l, k.id) :: Asset(k.id, db.rows[k]);
    CandidatesInScope(db, key, l);
    assert forall a :: Candidate(db, key, l, a) <==> a in all;
    assert all <= ScopeOf(db, key);
    var rest := all;
    while rest != {}
      invariant rest <= all
      invariant found == None <==> rest == all
      invariant found.Some? ==> found.value in all - rest
      invariant found.Some? ==> forall a :: a in all - rest && a != found.value ==> Before(l, found.value.row, a.row)
    {
      var a :| a in rest;
      found := Better(db, key, l, found, a, all - rest);
      rest := rest - {a};
    }
    if found.Some? {
      assert Candidate(db, key, l, found.value);
      OneScope(db, key, found.value.id);
    }
  }

  /** The better of the best so far and one more match. */
  method Better(db: Db, key: Id, l: Lookup, best: Option<Asset>, a: Asset, ghost seen: set<Asset>)
    returns (found: Option<Asset>)
    requires Valid(db) && seen <= ScopeOf(db, key) && a in ScopeOf(db, key) && a !in seen
    requires best == None ==> seen == {}
    requires best.Some? ==> best.value in seen
    requires best.Some? ==> forall b :: b in seen && b != best.value ==> Before(l, best.value.row, b.row)
    ensures found.Some? && found.value in seen + {a}
    ensures forall b :: b in seen + {a} && b != found.value ==> Before(l, found.value.row, b.row)
  {
    hide Valid, ScopeOf, Before;
    if best == None { return Some(a); }
    DistinctNames(db, key, a, best.value);
    BeforeTotal(l, a.row, best.value.row);
    if !Before(l, a.row, best.value.row) { return best; }
    forall b | b in seen && b != best.value ensures Before(l, a.row, b.row) {
      BeforeTrans(l, a.row, best.value.row, b.row);
    }
    return Some(a);
  }

  lemma CandidatesInScope(db: Db, key: Id, l: Lookup)
    requires Valid(db)
    ensures forall a :: Candidate(db, key, l, a) <==> a in ScopeOf(db, key) && Matches(l, a.row)
  {
    hide Valid, Selects, ListSelects, Matches;
    forall a ensures Candidate(db, key, l, a) <==> a in ScopeOf(db, key) && Matches(l, a.row) {
      OneScope(db, key, a.id);
    }
  }

  lemma BeforeTotal(l: Lookup, a: Row, b: Row)
    requires a.name != b.name
    ensures Before(l, a, b) || Before(l, b, a)
  {
    NameLessTotal(a.name, b.name);
  }

  lemma BeforeTrans(l: Lookup, a: Row, b: Row, c: Row)
    requires Before(l, a, b) && Before(l, b, c)
    ensures Before(l, a, c)
  {
    if NameLess(a.name, b.name) && NameLess(b.name, c.name) { NameLessTrans(a.name, b.name, c.name); }
  }

  /** The order has one least candidate, so the lookup's answer is determined. */
  lemma BestMatchUnique(db: Db, key: Id, l: Lookup, found: Option<Asset>, other: Option<Asset>)
    requires Answers(db, key, l, found) && Answers(db, key, l, other)
    ensures found == other
  {
    hide Candidate;
    if found.Some? && other.Some? && found != other {
      BeforeTrans(l, found.value.row, other.value.row, found.value.row);
      NameLessIrreflexive(found.value.row.name);
    }
  }

  // ---------- When proxying finds a given asset ----------

  /** No other candidate is asked for by its endpoint, or the asset is too and comes first by name. */
  ghost predicate Unrivalled(db: Db, key: Id, l: Lookup, a: Asset) {
    forall x :: Candidate(db, key, l, x) && x != a && Preferred(l, x.row) ==> Preferred(l, a.row) && NameLess(a.row.name, x.row.name)
  }

  /** Exactly when a proxy request is answered with a given asset in scope. */
  lemma ProxyFinds(db: Db, key: Id, host: string, port: int, a: Asset, found: Option<Asset>)
    requires Valid(db) && a in ScopeOf(db, key) && Answers(db, key, Proxy(host, port), found)
    ensures found == Some(a) <==> Matches(Proxy(host, port), a.row) && Unrivalled(db, key, Proxy(host, port), a)
  {
    var l := Proxy(host, port);
    CandidatesInScope(db, key, l);
    hide Valid, ScopeOf, Candidate, StripHop;
    if found == Some(a) {
      forall x | Candidate(db, key, l, x) && x != a && Preferred(l, x.row)
        ensures Preferred(l, a.row) && NameLess(a.row.name, x.row.name)
      {
        assert Before(l, a.row, x.row);
      }
    } else if Matches(l, a.row) && Unrivalled(db, key, l, a) {
      var b := found.value;
      DistinctNames(db, key, a, b);
      assert Before(l, b.row, a.row) && Preferred(l, b.row);
      assert Before(l, a.row, b.row);
      BeforeTrans(l, a.row, b.row, a.row);
      NameLessIrreflexive(a.row.name);
    }
  }

  /** Asked for with ".hop" appended, an asset is found exactly when it is unrivalled: no asset has the
      text as given, and the port, for its endpoint, other than the asset itself or one after it. */
  lemma ProxyFindsByName(db: Db, key: Id, port: int, a: Asset, found: Option<Asset>)
    requires Valid(db) && a in ScopeOf(db, key) && Answers(db, key, Proxy(a.row.name + ".hop", port), found)
    ensures StripHop(a.row.name + ".hop") == a.row.name
    ensures found == Some(a) <==> Unrivalled(db, key, Proxy(a.row.name + ".hop", port), a)
  {
    var text := a.row.name + ".hop";
    assert text[|text| - 4..] == ".hop" && text[..|text| - 4] == a.row.name;
    ScopeRows(db, key, a);
    ProxyFinds(db, key, text, port, a, found);
  }

  /** The same told from the rows: the asset has the endpoint asked for, and comes first by name of those
      that do; or it has the name, and no asset in scope has the endpoint. */
  lemma ProxyFindsExactly(db: Db, key: Id, host: string, port: int, a: Asset, found: Option<Asset>)
    requires Valid(db) && a in ScopeOf(db, key) && Answers(db, key, Proxy(host, port), found)
    ensures a.row.AssetRow? && forall x :: x in ScopeOf(db, key) ==> x.row.AssetRow?
    ensures found == Some(a) <==>
      || (a.row.host == host && a.row.port == port
          && forall x :: x in ScopeOf(db, key) && x != a && x.row.host == host && x.row.port == port ==> NameLess(a.row.name, x.row.name))
      || (a.row.name == StripHop(host)
          && forall x :: x in ScopeOf(db, key) ==> !(x.row.host == host && x.row.port == port))
  {
    ScopeOfAssets(db, key);
    CandidatesInScope(db, key, Proxy(host, port));
    ProxyFinds(db, key, host, port, a, found);
    hide Valid, ScopeOf, Candidate, StripHop, Answers;
  }

  lemma ScopeOfAssets(db: Db, key: Id)
    requires Valid(db)
    ensures forall x :: x in ScopeOf(db, key) ==> x.row.AssetRow?
  {
    hide ListSelects;
    forall x | x in ScopeOf(db, key) ensures x.row.AssetRow? { ScopeRows(db, key, x); }
  }

  /** Direct login is answered with a given asset in scope if and only if its name is the target; or its
      host is, no asset in scope has the target for its name, and it comes first by name of those in
      scope that have the target for their host. */
  lemma DirectFindsExactly(db: Db, key: Id, target: string, a: Asset, found: Option<Asset>)
    requires Valid(db) && a in ScopeOf(db, key) && Answers(db, key, Direct(target), found)
    ensures a.row.AssetRow? && forall x :: x in ScopeOf(db, key) ==> x.row.AssetRow?
    ensures found == Some(a) <==>
      || a.row.name == target
      || (a.row.host == target
          && (forall x :: x in ScopeOf(db, key) ==> x.row.name != target)
          && forall x :: x in ScopeOf(db, key) && x != a && x.row.host == target ==> !NameLess(x.row.name, a.row.name))
  {
    ScopeOfAssets(db, key);
    var l := Direct(target);
    CandidatesInScope(db, key, l);
    hide Valid, ScopeOf, Candidate;
    if found == Some(a) {
      forall x | x in ScopeOf(db, key) && x != a
        ensures a.row.name == target || (x.row.name != target && (x.row.host == target ==> !NameLess(x.row.name, a.row.name)))
      {
        if Matches(l, x.row) {
          assert Before(l, a.row, x.row);
          NameLessAsym(a.row.name, x.row.name);
        }
      }
    } else {
      if a.row.name == target || a.row.host == target {
        assert Candidate(db, key, l, a);
        var b := found.value;
        DistinctNames(db, key, a, b);
        assert Before(l, b.row, a.row) && b in ScopeOf(db, key);
      }
    }
  }

  lemma NameLessAsym(a: Name, b: Name)
    ensures !(NameLess(a, b) && NameLess(b, a))
  {
    if NameLess(a, b) && NameLess(b, a) {
      NameLessTrans(a, b, a);
      NameLessIrreflexive(a);
    }
  }

  predicate EndsInHop(name: Name) {
    |name| >= 4 && name[|name| - 4..] == ".hop"
  }

  /** Asked for by its plain name, an asset is found exactly when it is unrivalled and either its name
      does not end in ".hop" or the name is its own endpoint: the suffix is taken off a name that has it. */
  lemma ProxyFindsPlainName(db: Db, key: Id, port: int, a: Asset, found: Option<Asset>)
    requires Valid(db) && a in ScopeOf(db, key) && Answers(db, key, Proxy(a.row.name, port), found)
    ensures found == Some(a) <==>
      && (!EndsInHop(a.row.name) || Preferred(Proxy(a.row.name, port), a.row))
      && Unrivalled(db, key, Proxy(a.row.name, port), a)
  {
    ScopeRows(db, key, a);
    ProxyFinds(db, key, a.row.name, port, a, found);
    assert EndsInHop(a.row.name) ==> |StripHop(a.row.name)| < |a.row.name|;
  }

  lemma ScopeRows(db: Db, key: Id, a: Asset)
    requires Valid(db) && a in ScopeOf(db, key)
    ensures a.row.AssetRow?
  {
    assert RowOk(Key(Assets, a.id), db.rows[Key(Assets, a.id)]);
  }

  /** A catalog in which a request for "a.hop" is answered with another asset than "a". */
  const RIVALS := Db(
    map[Key(AccessKeys, Id("1")) := KeyRow("k", PublicKey("t", "b"), Sha256("b"), true, All),
        Key(Assets, Id("2")) := AssetRow("a", Ssh, "h", 22, None, None, None, None),
        Key(Assets, Id("3")) := AssetRow("b", Ssh, "a.hop", 22, None, None, None, None)],
    {},
    map[Key(AccessKeys, Id("1")) := Local, Key(Assets, Id("2")) := Local, Key(Assets, Id("3")) := Local], map[], 3)

  lemma RivalsValid()
    ensures Valid(RIVALS)
  {
    hide Clash;
    RivalsDistinct();
    RivalsOwned();
  }

  lemma RivalsOwned()
    ensures GrantsValid(RIVALS.rows, RIVALS.allow) && OwnersValid(RIVALS.rows, RIVALS.owners)
    ensures forall k :: k in RIVALS.rows ==> RowOk(k, RIVALS.rows[k]) && CredentialExists(RIVALS.rows, RIVALS.rows[k])
  {
  }

  lemma RivalsDistinct()
    ensures forall k, j :: k in RIVALS.rows && j in RIVALS.rows && k != j ==> !Clash(k, RIVALS.rows[k], j, RIVALS.rows[j])
  {
  }

  const ASKED := Asset(Id("2"), AssetRow("a", Ssh, "h", 22, None, None, None, None))
  const RIVAL := Asset(Id("3"), AssetRow("b", Ssh, "a.hop", 22, None, None, None, None))

  lemma RivalInScope(a: Asset)
    requires a == ASKED || a == RIVAL
    ensures a in ScopeOf(RIVALS, Id("1"))
  {
    hide ListSelects;
    ListInScope(RIVALS, Id("1"), a.id);
    assert Key(Assets, a.id) in RIVALS.rows && RIVALS.rows[Key(Assets, a.id)] == a.row;
  }

  /** Both assets are in scope, and a request for "a.hop" is answered, but not with the asset "a". */
  lemma EndpointTakesTheName(found: Option<Asset>)
    requires Answers(RIVALS, Id("1"), Proxy("a.hop", 22), found)
    ensures Valid(RIVALS) && ASKED in ScopeOf(RIVALS, Id("1")) && RIVAL in ScopeOf(RIVALS, Id("1"))
    ensures ASKED.row.name + ".hop" == "a.hop" && found.Some? && found != Some(ASKED)
  {
    hide Valid, ScopeOf, Answers, Candidate, StripHop;
    RivalsValid();
    RivalInScope(ASKED);
    RivalInScope(RIVAL);
    var l := Proxy("a.hop", 22);
    assert ASKED.row.name + ".hop" == "a.hop";
    CandidatesInScope(RIVALS, Id("1"), l);
    assert Preferred(l, RIVAL.row) && !Preferred(l, ASKED.row);
    SomethingFound(RIVALS, Id("1"), l, RIVAL, found);
    ProxyFinds(RIVALS, Id("1"), "a.hop", 22, ASKED, found);
  }

  lemma SomethingFound(db: Db, key: Id, l: Lookup, a: Asset, found: Option<Asset>)
    requires Answers(db, key, l, found) && Candidate(db, key, l, a)
    ensures found.Some?
  {
  }

  /** A restricted key reaches no asset beyond its grants. */
  lemma ScopeWithinGrants(db: Db, key: Id, asset: Id)
    requires Confined(db, key) && KeyCanAccessAsset(db, key, asset)
    ensures asset in Granted(db, key) && Key(Assets, asset) in db.rows
  {
    GateInScope(db, key, asset);
    assert Grant(key, asset) in db.allow;
  }

  /** What a restricted key reaches at the end of a run that never sets its access, it was granted
      at the start. */
  lemma ScopeNeverGrows(states: seq<Db>, events: seq<Event>, i: nat, j: nat, key: Id, asset: Id)
    requires Run(states, events) && i <= j < |states| && Confined(states[i], key)
    requires forall n :: i <= n < j ==> !Regrants(states[n], events[n], key)
    requires KeyCanAccessAsset(states[j], key, asset)
    ensures Grant(key, asset) in states[i].allow && Key(Assets, asset) in states[i].rows
  {
    hide Follows, Confined, Regrants, RowsValid, OwnersValid, KeyCanAccessAsset;
    RunConfines(states, events, i, j, key);
    ScopeWithinGrants(states[j], key, asset);
    RunValid(states, events, i);
    assert asset in Granted(states[i], key);
  }
}
