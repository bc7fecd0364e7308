/** Importing asset rows into the catalog, one transaction per row, under a conflict policy. */
module Imports {
  import opened Wrappers
  import opened Names
  import opened Schema
  import opened LocalEdits
  import opened Transfer
  import opened Catalogs
  import Text

  datatype Policy = Skip | Overwrite | Error

  datatype ImportSummary = ImportSummary(imported: nat, skipped: nat, overwritten: nat, errors: seq<Name>) {
    function Handled(): nat {
      imported + skipped + overwritten + |errors|
    }
  }

  datatype ImportError = BadFile | Refused(error: EditError)

  function NewAssetOf(row: TransferRow): NewAsset {
    NewAsset(row.name, row.protocol, row.hostname, row.port, row.description, row.tags,
             if row.credential.Some? then Some(Id(row.credential.value)) else None)
  }

  function DisplayName(row: Row): Option<string> {
    if row.AssetRow? then row.displayName else None
  }

  ghost predicate Named(db: Db, name: Name) {
    exists k :: k in db.rows && k.kind == Assets && db.rows[k].name == name
  }

  /** One import: the catalog it meets, its rows, and the ids set aside for what it may add. */
  datatype Import = Import(before: Db, rows: seq<TransferRow>, policy: Policy, ids: seq<Id>) {
    ghost predicate Ready() {
      && Valid(before)
      && |ids| >= |rows|
      && (forall i :: 0 <= i < |ids| ==> Key(Assets, ids[i]) !in before.rows)
      && (forall i, j :: 0 <= i < j < |ids| ==> ids[i] != ids[j])
    }

    predicate Occurs(n: nat, name: Name)
      requires n <= |rows|
    {
      exists i :: 0 <= i < n && rows[i].name == name
    }

    /** The last of the first `n` rows with the given name. */
    function Last(n: nat, name: Name): (i: nat)
      requires n <= |rows| && Occurs(n, name)
      ensures i < n && rows[i].name == name
      ensures forall j :: i < j < n ==> rows[j].name != name
    {
      if rows[n - 1].name == name then n - 1 else Last(n - 1, name)
    }

    predicate First(i: nat)
      requires i < |rows|
    {
      forall j :: 0 <= j < i ==> rows[j].name != rows[i].name
    }

    /** The row that adds a new asset: the first with a name the catalog did not have. */
    ghost predicate Creates(i: nat)
      requires i < |rows|
    {
      First(i) && !Named(before, rows[i].name)
    }

    /** The names, in order, of the rows among the first `n` that met an asset of their name. */
    ghost function Met(n: nat): seq<Name>
      requires n <= |rows|
    {
      if n == 0 then [] else Met(n - 1) + if Creates(n - 1) then [] else [rows[n - 1].name]
    }

    /** The stored row is the given row of the file, normalised. */
    predicate IsRow(row: Row, i: nat, displayName: Option<string>)
      requires i < |rows|
    {
      AssetOk(NewAssetOf(rows[i])) && row == AssetRowFor(NewAssetOf(rows[i]), displayName)
    }

    /** An asset that was there holds the last row of its name if rows overwrite, and else what it
        held before. */
    ghost predicate OldRow(after: Db, n: nat, k: Key)
      requires n <= |rows| && k in before.rows
    {
      && k in after.rows
      && if k.kind == Assets && policy == Overwrite && Occurs(n, before.rows[k].name)
         then IsRow(after.rows[k], Last(n, before.rows[k].name), DisplayName(before.rows[k]))
         else after.rows[k] == before.rows[k]
    }

    /** A new asset holds the last row of its name if rows overwrite, and else the first. */
    ghost predicate NewRow(after: Db, n: nat, i: nat)
      requires i < n <= |rows| <= |ids|
    {
      && Key(Assets, ids[i]) in after.rows
      && IsRow(after.rows[Key(Assets, ids[i])], if policy == Overwrite then Last(n, rows[i].name) else i, None)
    }

    ghost predicate AddedBy(n: nat, k: Key)
      requires n <= |rows| <= |ids|
    {
      exists i :: 0 <= i < n && Creates(i) && k == Key(Assets, ids[i])
    }

    /** Owners are as before, and what was added is local. */
    ghost predicate OwnersStand(after: Db) {
      forall k :: k in after.owners ==> after.owners[k] == if k in before.owners then before.owners[k] else Local
    }

    /** The catalog after the first `n` rows. */
    ghost predicate Stands(after: Db, n: nat)
      requires Ready() && n <= |rows|
    {
      && (forall k :: k in before.rows ==> OldRow(after, n, k))
      && (forall i :: 0 <= i < n && Creates(i) ==> NewRow(after, n, i))
      && (forall k :: k in after.rows && k !in before.rows ==> AddedBy(n, k))
      && OwnersStand(after)
      && after.allow == before.allow
      && after.sources == before.sources
    }

    /** The names after `n` rows are those from before and those of the rows; this is where a name
        sits. */
    lemma Holder(after: Db, n: nat, k: Key)
      requires Ready() && n <= |rows| && Stands(after, n) && k in after.rows && k.kind == Assets
      ensures k in before.rows ==> after.rows[k].name == before.rows[k].name
      ensures k !in before.rows ==>
        exists i :: 0 <= i < n && Creates(i) && k == Key(Assets, ids[i]) && after.rows[k].name == rows[i].name
    {
      hide Valid, AssetOk;
      if k in before.rows {
        assert OldRow(after, n, k);
      } else {
        assert AddedBy(n, k);
        var i :| 0 <= i < n && Creates(i) && k == Key(Assets, ids[i]);
        assert NewRow(after, n, i);
      }
    }

    lemma NamesSoFar(after: Db, n: nat, name: Name)
      requires Ready() && n <= |rows| && Stands(after, n)
      ensures Named(after, name) <==> Named(before, name) || Occurs(n, name)
    {
      hide Valid, AssetOk, IsRow, Stands;
      if Named(after, name) {
        var k :| k in after.rows && k.kind == Assets && after.rows[k].name == name;
        Holder(after, n, k);
      }
      if Named(before, name) {
        var k :| k in before.rows && k.kind == Assets && before.rows[k].name == name;
        StandsOld(after, n, k);
        Holder(after, n, k);
      } else if Occurs(n, name) {
        var i := FirstOf(n, name);
        StandsNew(after, n, i);
      }
    }

    lemma StandsOld(after: Db, n: nat, k: Key)
      requires Ready() && n <= |rows| && Stands(after, n) && k in before.rows
      ensures OldRow(after, n, k) && k in after.rows
    {
    }

    lemma StandsNew(after: Db, n: nat, i: nat)
      requires Ready() && i < n <= |rows| && Stands(after, n) && Creates(i)
      ensures NewRow(after, n, i) && after.rows[Key(Assets, ids[i])].name == rows[i].name
    {
    }

    function FirstOf(n: nat, name: Name): (i: nat)
      requires n <= |rows| && Occurs(n, name)
      ensures i < n && rows[i].name == name && First(i)
    {
      if n > 1 && Occurs(n - 1, name) then FirstOf(n - 1, name) else n - 1
    }

    // ---------- One row more ----------

    /** Whether the row's own transaction, an insert or an overwrite of `k`, is refused. */
    ghost predicate Refuses(db: Db, n: nat)
      requires n < |rows| <= |ids|
    {
      var a := NewAssetOf(rows[n]);
      if !Named(db, rows[n].name) then !Admits(db, Edit.AddAsset(ids[n], a))
      else policy == Overwrite && exists k :: k in db.rows && k.kind == Assets && db.rows[k].name == rows[n].name
                                              && !Admits(db, Edit.UpdateAsset(k.id, a))
    }

    /** What the row is not about stands as before. */
    ghost predicate Untouched(after: Db, db': Db, n: nat)
      requires n < |rows|
    {
      forall k :: k in after.rows ==>
        k in db'.rows && (policy != Overwrite || k.kind != Assets || after.rows[k].name != rows[n].name ==> db'.rows[k] == after.rows[k])
    }

    lemma OldStep(after: Db, db': Db, n: nat, k: Key)
      requires Ready() && n < |rows| && Stands(after, n) && Untouched(after, db', n) && k in before.rows
      requires policy != Overwrite || k.kind != Assets || before.rows[k].name != rows[n].name
      ensures OldRow(db', n + 1, k)
    {
      hide Valid, AssetOk, IsRow, Stands;
      StandsOld(after, n, k);
      if k.kind == Assets { Holder(after, n, k); }
    }

    lemma NewStep(after: Db, db': Db, n: nat, i: nat)
      requires Ready() && i < n < |rows| && Stands(after, n) && Untouched(after, db', n) && Creates(i)
      requires policy != Overwrite || rows[i].name != rows[n].name
      ensures NewRow(db', n + 1, i)
    {
      hide Valid, AssetOk, IsRow, Stands;
      StandsNew(after, n, i);
    }

    lemma AddedStep(after: Db, n: nat, k: Key)
      requires Ready() && n < |rows| && Stands(after, n) && k in after.rows && k !in before.rows
      ensures AddedBy(n + 1, k)
    {
      hide Valid, AssetOk, IsRow;
      assert AddedBy(n, k);
    }

    lemma KeepStep(after: Db, n: nat)
      requires Ready() && n < |rows| && Stands(after, n) && policy != Overwrite && Named(after, rows[n].name)
      ensures Stands(after, n + 1) && !Creates(n)
    {
      hide Valid, AssetOk, IsRow;
      NamesSoFar(after, n, rows[n].name);
      assert !Creates(n);
      forall k | k in before.rows ensures OldRow(after, n + 1, k) { OldStep(after, after, n, k); }
      forall i | 0 <= i < n && Creates(i) ensures NewRow(after, n + 1, i) { NewStep(after, after, n, i); }
      forall k | k in after.rows && k !in before.rows ensures AddedBy(n + 1, k) { AddedStep(after, n, k); }
    }

    /** `db'` is `after` with a new local asset for row `n`. */
    ghost predicate Adds(after: Db, db': Db, n: nat)
      requires n < |rows| <= |ids|
    {
      var k := Key(Assets, ids[n]);
      && k !in after.rows && db'.rows.Keys == after.rows.Keys + {k} && IsRow(db'.rows[k], n, None)
      && (forall j :: j in after.rows ==> db'.rows[j] == after.rows[j])
      && k !in after.owners && db'.owners == after.owners[k := Local]
      && db'.allow == after.allow && db'.sources == after.sources && db'.revision == after.revision + 1
      && |db'.rows| == |after.rows| + 1
    }

    /** `db'` is `after` with the asset `k` rewritten to row `n`. */
    ghost predicate Overwrites(after: Db, db': Db, n: nat, k: Key)
      requires n < |rows|
    {
      && k in after.rows
      && db'.rows.Keys == after.rows.Keys && IsRow(db'.rows[k], n, DisplayName(after.rows[k]))
      && (forall j :: j in after.rows && j != k ==> db'.rows[j] == after.rows[j])
      && db'.owners == after.owners
      && db'.allow == after.allow && db'.sources == after.sources && db'.revision == after.revision + 1
      && |db'.rows| == |after.rows|
    }

    lemma AddedAt(after: Db, n: nat)
      requires n < |rows| <= |ids| && Valid(after) && Admits(after, Edit.AddAsset(ids[n], NewAssetOf(rows[n])))
      ensures AssetOk(NewAssetOf(rows[n]))
      ensures var k := Key(Assets, ids[n]); var db' := Effect(after, Edit.AddAsset(ids[n], NewAssetOf(rows[n])));
        && k !in after.rows && k !in after.owners
        && db' == Inserted(after, k, AssetRowFor(NewAssetOf(rows[n]), None))
    {
    }

    lemma AddEffect(after: Db, n: nat)
      requires n < |rows| <= |ids| && Valid(after) && Admits(after, Edit.AddAsset(ids[n], NewAssetOf(rows[n])))
      ensures var db' := Effect(after, Edit.AddAsset(ids[n], NewAssetOf(rows[n])));
        Valid(db') && Adds(after, db', n)
    {
      hide Valid, Effect, Admits, AssetOk, AssetRowFor;
      var e := Edit.AddAsset(ids[n], NewAssetOf(rows[n]));
      EffectValid(after, e);
      AddedAt(after, n);
      OneMore(after.rows, Key(Assets, ids[n]), AssetRowFor(NewAssetOf(rows[n]), None));
    }

    lemma OverwriteEffect(after: Db, n: nat, id: Id)
      requires n < |rows| && Valid(after) && Admits(after, Edit.UpdateAsset(id, NewAssetOf(rows[n])))
      ensures var db' := Effect(after, Edit.UpdateAsset(id, NewAssetOf(rows[n])));
        Valid(db') && Overwrites(after, db', n, Key(Assets, id))
    {
      var e := Edit.UpdateAsset(id, NewAssetOf(rows[n]));
      EffectValid(after, e);
      var db' := Effect(after, e);
      assert RowOk(Key(Assets, id), after.rows[Key(Assets, id)]);
      assert db'.rows.Keys == after.rows.Keys;
      KeysCount(db'.rows);
      KeysCount(after.rows);
    }

    lemma AddStep(after: Db, db': Db, n: nat)
      requires Ready() && n < |rows| && Stands(after, n) && !Named(after, rows[n].name)
      requires Adds(after, db', n)
      ensures Stands(db', n + 1) && Creates(n)
    {
      hide Valid, IsRow, OldRow, NewRow, AddedBy, Creates, Named, OwnersStand, Ready;
      AddedRows(after, db', n);
      AddedOwners(after, db', n);
    }

    lemma AddedOwners(after: Db, db': Db, n: nat)
      requires Ready() && n < |rows| && Stands(after, n) && Adds(after, db', n)
      ensures OwnersStand(db') && db'.allow == before.allow && db'.sources == before.sources
    {
      hide RowsValid, GrantsValid, IsRow, OldRow, NewRow, AddedBy, Creates;
      assert Key(Assets, ids[n]) !in before.owners;
    }

    lemma AddedRows(after: Db, db': Db, n: nat)
      requires Ready() && n < |rows| && Stands(after, n) && !Named(after, rows[n].name)
      requires Adds(after, db', n)
      ensures forall k :: k in before.rows ==> OldRow(db', n + 1, k)
      ensures forall i :: 0 <= i < n + 1 && Creates(i) ==> NewRow(db', n + 1, i)
      ensures forall k :: k in db'.rows && k !in before.rows ==> AddedBy(n + 1, k)
      ensures Creates(n)
    {
      hide Valid, IsRow, Stands, OldRow, AssetOk;
      NamesSoFar(after, n, rows[n].name);
      assert !Occurs(n, rows[n].name);
      var added := Key(Assets, ids[n]);
      assert Creates(n) && AddedBy(n + 1, added) && NewRow(db', n + 1, n);
      forall k | k in before.rows ensures OldRow(db', n + 1, k) {
        if k.kind == Assets { assert Named(before, before.rows[k].name); }
        OldStep(after, db', n, k);
      }
      forall i | 0 <= i < n && Creates(i) ensures NewRow(db', n + 1, i) { NewStep(after, db', n, i); }
      forall k | k in after.rows && k !in before.rows ensures AddedBy(n + 1, k) { AddedStep(after, n, k); }
    }

    lemma OverwriteStep(after: Db, db': Db, n: nat, k: Key)
      requires Ready() && n < |rows| && Stands(after, n) && Valid(after) && policy == Overwrite
      requires k.kind == Assets && k in after.rows && after.rows[k].name == rows[n].name
      requires Overwrites(after, db', n, k)
      ensures Stands(db', n + 1) && !Creates(n)
    {
      hide Valid, IsRow, OldRow, NewRow, AddedBy, Last;
      OnlyHolder(after, n, k);
      forall j | j in before.rows ensures OldRow(db', n + 1, j) {
        OverwrittenOld(after, db', n, k, j);
      }
      assert Named(after, rows[n].name);
      NamesSoFar(after, n, rows[n].name);
      forall i | 0 <= i < n + 1 && Creates(i) ensures NewRow(db', n + 1, i) {
        OverwrittenNew(after, db', n, k, i);
      }
      forall j | j in after.rows && j !in before.rows ensures AddedBy(n + 1, j) { AddedStep(after, n, j); }
    }

    lemma OnlyHolder(after: Db, n: nat, k: Key)
      requires n < |rows| && Valid(after) && k.kind == Assets && k in after.rows && after.rows[k].name == rows[n].name
      ensures forall j :: j in after.rows && j.kind == Assets && after.rows[j].name == rows[n].name ==> j == k
    {
      ValidUniqueNames(after);
      hide Valid;
      assert forall j :: j in after.rows && j.kind == Assets && after.rows[j].name == rows[n].name ==>
        RefOf(j, after.rows[j]) == RefOf(k, after.rows[k]);
    }

    lemma OverwrittenOld(after: Db, db': Db, n: nat, k: Key, j: Key)
      requires Ready() && n < |rows| && Stands(after, n) && policy == Overwrite && j in before.rows
      requires k.kind == Assets && k in after.rows && after.rows[k].name == rows[n].name
      requires forall j :: j in after.rows && j.kind == Assets && after.rows[j].name == rows[n].name ==> j == k
      requires Overwrites(after, db', n, k)
      ensures OldRow(db', n + 1, j)
    {
      hide Valid, AssetOk, Stands;
      StandsOld(after, n, j);
      if j.kind == Assets { Holder(after, n, j); }
      if j != k { OldStep(after, db', n, j); }
    }

    lemma OverwrittenNew(after: Db, db': Db, n: nat, k: Key, i: nat)
      requires Ready() && i < n + 1 <= |rows| && Stands(after, n) && policy == Overwrite && Creates(i)
      requires k.kind == Assets && k in after.rows && after.rows[k].name == rows[n].name
      requires forall j :: j in after.rows && j.kind == Assets && after.rows[j].name == rows[n].name ==> j == k
      requires Overwrites(after, db', n, k)
      ensures NewRow(db', n + 1, i)
    {
      hide Valid, AssetOk, Stands;
      assert Named(after, rows[n].name);
      NamesSoFar(after, n, rows[n].name);
      if i < n { StandsNew(after, n, i); }
    }
  }

  lemma OneMore<K, V>(m: map<K, V>, k: K, v: V)
    requires k !in m
    ensures m[k := v].Keys == m.Keys + {k} && |m[k := v]| == |m| + 1
  {
    KeysCount(m);
    KeysCount(m[k := v]);
    assert m[k := v].Keys == m.Keys + {k};
  }

  lemma KeysCount<K, V>(m: map<K, V>)
    ensures |m.Keys| == |m|
  {
  }

  /** Where the import is after `n` rows, and what it has counted. */
  ghost predicate Progress(job: Import, db: Db, n: nat, summary: ImportSummary)
    requires job.Ready() && n <= |job.rows|
  {
    && Valid(db) && job.Stands(db, n)
    && summary.Handled() == n && summary.imported == n - |job.Met(n)|
    && summary.errors == (if job.policy == Error then job.Met(n) else [])
    && db.revision == job.before.revision + summary.imported + summary.overwritten
    && |db.rows| == |job.before.rows| + summary.imported
    && (job.policy != Skip ==> summary.skipped == 0)
    && (job.policy != Overwrite ==> summary.overwritten == 0)
  }

  /** The import stopped at a row whose own transaction was refused; the rows before it stay. */
  ghost predicate Stopped(job: Import, db: Db)
    requires job.Ready()
  {
    exists n: nat :: n < |job.rows| && job.Stands(db, n) && job.Refuses(db, n)
  }

  lemma KeepRow(job: Import, db: Db, n: nat, summary: ImportSummary, id: Id)
    requires job.Ready() && n < |job.rows| && Progress(job, db, n, summary) && job.policy != Overwrite
    requires Key(Assets, id) in db.rows && db.rows[Key(Assets, id)].name == job.rows[n].name
    ensures job.policy == Skip ==> Progress(job, db, n + 1, summary.(skipped := summary.skipped + 1))
    ensures job.policy == Error ==> Progress(job, db, n + 1, summary.(errors := summary.errors + [job.rows[n].name]))
  {
    hide Valid, Import.Stands, Import.Ready;
    job.KeepStep(db, n);
  }

  lemma OverwriteRow(job: Import, db: Db, n: nat, summary: ImportSummary, id: Id)
    requires job.Ready() && n < |job.rows| && Progress(job, db, n, summary) && Valid(db) && job.policy == Overwrite
    requires Key(Assets, id) in db.rows && db.rows[Key(Assets, id)].name == job.rows[n].name
    ensures var e := Edit.UpdateAsset(id, NewAssetOf(job.rows[n]));
      if Admits(db, e) then Progress(job, Effect(db, e), n + 1, summary.(overwritten := summary.overwritten + 1))
      else Stopped(job, db)
  {
    hide Valid, Admits, Effect, Import.Stands;
    var e := Edit.UpdateAsset(id, NewAssetOf(job.rows[n]));
    if Admits(db, e) {
      job.OverwriteEffect(db, n, id);
      job.OverwriteStep(db, Effect(db, e), n, Key(Assets, id));
    } else {
      assert job.Refuses(db, n);
    }
  }

  lemma AddRow(job: Import, db: Db, n: nat, summary: ImportSummary)
    requires job.Ready() && n < |job.rows| && Progress(job, db, n, summary) && Valid(db)
    requires !Named(db, job.rows[n].name)
    ensures var e := Edit.AddAsset(job.ids[n], NewAssetOf(job.rows[n]));
      if Admits(db, e) then Progress(job, Effect(db, e), n + 1, summary.(imported := summary.imported + 1))
      else Stopped(job, db)
  {
    hide Valid, Admits, Effect, Import.Stands;
    var e := Edit.AddAsset(job.ids[n], NewAssetOf(job.rows[n]));
    if Admits(db, e) {
      job.AddEffect(db, n);
      job.AddStep(db, Effect(db, e), n);
    } else {
      assert job.Refuses(db, n);
    }
  }

  /** A row whose name is taken: counted, or written over the asset that has the name. */
  method MeetExisting(catalog: Catalog, row: TransferRow, policy: Policy, existing: Id, summary: ImportSummary,
                      ghost job: Import, ghost n: nat)
    returns (r: Result<ImportSummary, EditError>)
    requires Valid(catalog.State()) && job.Ready() && n < |job.rows| && job.rows[n] == row && job.policy == policy
    requires Progress(job, catalog.State(), n, summary)
    requires Key(Assets, existing) in catalog.rows && catalog.rows[Key(Assets, existing)].name == row.name
    modifies catalog
    ensures Valid(catalog.State())
    ensures r.Ok? ==> Progress(job, catalog.State(), n + 1, r.value)
    ensures r.Err? ==> Stopped(job, catalog.State())
  {
    hide Valid, Admits, Effect, Import.Stands, Import.Ready, Import.Refuses, Progress, Stopped;
    ghost var db := catalog.State();
    match policy {
      case Skip =>
        KeepRow(job, db, n, summary, existing);
        r := Ok(summary.(skipped := summary.skipped + 1));
      case Error =>
        KeepRow(job, db, n, summary, existing);
        r := Ok(summary.(errors := summary.errors + [row.name]));
      case Overwrite =>
        OverwriteRow(job, db, n, summary, existing);
        var _ :- catalog.UpdateAsset(existing, NewAssetOf(row));
        r := Ok(summary.(overwritten := summary.overwritten + 1));
    }
    ProgressValid(job, catalog.State(), n + 1, r.value);
  }

  /** A row whose name is free: added. */
  method AddNew(catalog: Catalog, row: TransferRow, id: Id, summary: ImportSummary, ghost job: Import, ghost n: nat)
    returns (r: Result<ImportSummary, EditError>)
    requires Valid(catalog.State()) && job.Ready() && n < |job.rows| && job.rows[n] == row && job.ids[n] == id
    requires Progress(job, catalog.State(), n, summary) && !Named(catalog.State(), row.name)
    modifies catalog
    ensures Valid(catalog.State())
    ensures r.Ok? ==> Progress(job, catalog.State(), n + 1, r.value)
    ensures r.Err? ==> Stopped(job, catalog.State())
  {
    hide Valid, Admits, Effect, Import.Stands, Import.Refuses, Progress, Stopped, Named;
    AddRow(job, catalog.State(), n, summary);
    var _ :- catalog.AddAsset(id, NewAssetOf(row));
    r := Ok(summary.(imported := summary.imported + 1));
    ProgressValid(job, catalog.State(), n + 1, r.value);
  }

  /** Each row in turn adds an asset or meets one of its name; the first refused transaction ends
      the import. */
  method ImportRows(catalog: Catalog, rows: seq<TransferRow>, policy: Policy, ids: seq<Id>)
    returns (r: Result<ImportSummary, EditError>)
    requires Import(catalog.State(), rows, policy, ids).Ready()
    modifies catalog
    ensures Valid(catalog.State())
    ensures var job := Import(old(catalog.State()), rows, policy, ids);
      match r
      case Ok(summary) => Progress(job, catalog.State(), |rows|, summary)
      case Err(_) => Stopped(job, catalog.State())
  {
    var summary := ImportSummary(0, 0, 0, []);
    ghost var job := Import(catalog.State(), rows, policy, ids);
    StartsOut(job);
    assert |ids| >= |rows|;
    hide Valid, Import.Ready, Progress, Stopped;
    for i := 0 to |rows|
      invariant Valid(catalog.State()) && Progress(job, catalog.State(), i, summary)
    {
      var found := catalog.GetAssetByName(rows[i].name);
      if found.Some? {
        summary :- MeetExisting(catalog, rows[i], policy, found.value, summary, job, i);
      } else {
        summary :- AddNew(catalog, rows[i], ids[i], summary, job, i);
      }
    }
    return Ok(summary);
  }

  lemma StartsOut(job: Import)
    requires job.Ready()
    ensures Valid(job.before) && Progress(job, job.before, 0, ImportSummary(0, 0, 0, []))
  {
  }

  lemma ProgressValid(job: Import, db: Db, n: nat, summary: ImportSummary)
    requires job.Ready() && n <= |job.rows| && Progress(job, db, n, summary)
    ensures Valid(db)
  {
  }

  /** Reads a file of asset rows and imports them. */
  method ImportAssets(catalog: Catalog, input: string, policy: Policy, ids: seq<Id>)
    returns (r: Result<ImportSummary, ImportError>)
    requires Valid(catalog.State())
    requires ReadAssetCsv(input).Some? ==> Import(catalog.State(), ReadAssetCsv(input).value, policy, ids).Ready()
    modifies catalog
    ensures Valid(catalog.State())
    ensures r == Err(BadFile) <==> ReadAssetCsv(input) == None
    ensures r == Err(BadFile) ==> catalog.State() == old(catalog.State())
    ensures r != Err(BadFile) ==>
      var job := Import(old(catalog.State()), ReadAssetCsv(input).value, policy, ids);
      match r
      case Ok(summary) => Progress(job, catalog.State(), |job.rows|, summary)
      case Err(_) => Stopped(job, catalog.State())
  {
    hide Valid, Progress, Stopped, Import.Ready, ReadAssetCsv;
    var read := ReadAssets(input);
    if read == None { return Err(BadFile); }
    var imported := ImportRows(catalog, read.value, policy, ids);
    match imported
    case Ok(summary) => return Ok(summary);
    case Err(error) => return Err(Refused(error));
  }

  // ---------- What a finished import means ----------

  /** Whatever was there keeps its id, name and owner, and all but the assets named in the file is
      as it was. */
  lemma ImportFrame(job: Import, db: Db, n: nat)
    requires job.Ready() && n <= |job.rows| && job.Stands(db, n)
    ensures forall k :: k in job.before.rows ==> k in db.rows && RefOf(k, db.rows[k]) == RefOf(k, job.before.rows[k])
    ensures forall k :: k in job.before.rows && (k.kind != Assets || !job.Occurs(n, job.before.rows[k].name)) ==>
      db.rows[k] == job.before.rows[k]
    ensures forall k :: k in db.rows && k !in job.before.rows ==> k.kind == Assets && job.Occurs(n, db.rows[k].name)
    ensures job.OwnersStand(db) && db.allow == job.before.allow && db.sources == job.before.sources
  {
    OthersStand(job, db, n);
    hide Valid, Import.Stands, Import.OwnersStand;
    forall k | k in job.before.rows
      ensures k in db.rows && RefOf(k, db.rows[k]) == RefOf(k, job.before.rows[k])
      ensures k.kind != Assets || !job.Occurs(n, job.before.rows[k].name) ==> db.rows[k] == job.before.rows[k]
    {
      job.StandsOld(db, n, k);
      if k.kind == Assets { job.Holder(db, n, k); }
    }
    forall k | k in db.rows && k !in job.before.rows ensures k.kind == Assets && job.Occurs(n, db.rows[k].name) {
      AddedNamed(job, db, n, k);
    }
  }

  lemma OthersStand(job: Import, db: Db, n: nat)
    requires job.Ready() && n <= |job.rows| && job.Stands(db, n)
    ensures job.OwnersStand(db) && db.allow == job.before.allow && db.sources == job.before.sources
  {
  }

  lemma AddedNamed(job: Import, db: Db, n: nat, k: Key)
    requires job.Ready() && n <= |job.rows| && job.Stands(db, n) && k in db.rows && k !in job.before.rows
    ensures k.kind == Assets && job.Occurs(n, db.rows[k].name)
  {
    hide Valid;
    assert job.AddedBy(n, k);
    job.Holder(db, n, k);
  }

  /** Every name in the file is held by exactly one asset: under its old id if it had one. It holds
      the last row of that name if rows overwrite; else its old value, or the first row if new. */
  lemma ImportMeaning(job: Import, db: Db, n: nat, name: Name)
    requires job.Ready() && n <= |job.rows| && job.Stands(db, n) && Valid(db) && job.Occurs(n, name)
    ensures exists k :: k in db.rows && k.kind == Assets && db.rows[k].name == name
    ensures forall k :: k in db.rows && k.kind == Assets && db.rows[k].name == name ==>
      && (k in job.before.rows <==> Named(job.before, name))
      && if job.policy == Overwrite
         then job.IsRow(db.rows[k], job.Last(n, name),
                        if k in job.before.rows then DisplayName(job.before.rows[k]) else None)
         else if Named(job.before, name) then db.rows[k] == job.before.rows[k]
         else job.IsRow(db.rows[k], job.FirstOf(n, name), None)
  {
    ValidUniqueNames(db);
    hide Valid;
    job.NamesSoFar(db, n, name);
    forall k | k in db.rows && k.kind == Assets && db.rows[k].name == name
      ensures k in job.before.rows <==> Named(job.before, name)
      ensures if job.policy == Overwrite
         then job.IsRow(db.rows[k], job.Last(n, name),
                        if k in job.before.rows then DisplayName(job.before.rows[k]) else None)
         else if Named(job.before, name) then db.rows[k] == job.before.rows[k]
         else job.IsRow(db.rows[k], job.FirstOf(n, name), None)
    {
      Meaning(job, db, n, name, k);
    }
  }

  lemma Meaning(job: Import, db: Db, n: nat, name: Name, k: Key)
    requires job.Ready() && n <= |job.rows| && job.Stands(db, n) && UniqueNames(db) && job.Occurs(n, name)
    requires k in db.rows && k.kind == Assets && db.rows[k].name == name
    ensures k in job.before.rows <==> Named(job.before, name)
    ensures if job.policy == Overwrite
         then job.IsRow(db.rows[k], job.Last(n, name),
                        if k in job.before.rows then DisplayName(job.before.rows[k]) else None)
         else if Named(job.before, name) then db.rows[k] == job.before.rows[k]
         else job.IsRow(db.rows[k], job.FirstOf(n, name), None)
  {
    hide Valid, Import.IsRow, Import.Stands;
    job.Holder(db, n, k);
    if k in job.before.rows {
      job.StandsOld(db, n, k);
    } else {
      var i :| 0 <= i < n && job.Creates(i) && k == Key(Assets, job.ids[i]) && db.rows[k].name == job.rows[i].name;
      job.StandsNew(db, n, i);
    }
  }

  /** Overwriting twice with one file is overwriting once: the second time no row changes. */
  lemma ReimportSameRows(job: Import, after: Db, ids: seq<Id>, again: Db)
    requires job.Ready() && job.policy == Overwrite && job.Stands(after, |job.rows|)
    requires job.(before := after, ids := ids).Ready() && job.(before := after, ids := ids).Stands(again, |job.rows|)
    ensures again.rows == after.rows
  {
    hide Valid, Import.IsRow, Import.Stands, Import.Ready, Import.Creates, Import.OldRow;
    var n := |job.rows|;
    var second := job.(before := after, ids := ids);
    ImportFrame(second, again, n);
    forall k | k in again.rows ensures k in after.rows {
      if k !in after.rows { NothingAdded(job, second, again, k); }
    }
    forall k | k in after.rows ensures again.rows[k] == after.rows[k] {
      if k.kind == Assets && second.Occurs(n, after.rows[k].name) { SameRow(job, second, again, k); }
    }
  }

  lemma NothingAdded(job: Import, second: Import, again: Db, k: Key)
    requires job.Ready() && second.Ready() && second.rows == job.rows
    requires job.Stands(second.before, |job.rows|) && second.Stands(again, |job.rows|) && k in again.rows
    ensures k in second.before.rows
  {
    hide Valid, Import.IsRow, Import.Stands;
    if k !in second.before.rows {
      AddedNamed(second, again, |job.rows|, k);
      second.Holder(again, |job.rows|, k);
      job.NamesSoFar(second.before, |job.rows|, again.rows[k].name);
    }
  }

  lemma SameRow(job: Import, second: Import, again: Db, k: Key)
    requires job.Ready() && second.Ready() && second.rows == job.rows
    requires job.policy == Overwrite && second.policy == Overwrite
    requires job.Stands(second.before, |job.rows|) && second.Stands(again, |job.rows|)
    requires k in second.before.rows && k.kind == Assets && second.Occurs(|job.rows|, second.before.rows[k].name)
    ensures k in again.rows && again.rows[k] == second.before.rows[k]
  {
    var n, after := |job.rows|, second.before;
    var name := after.rows[k].name;
    hide Valid, Import.Stands;
    second.StandsOld(again, n, k);
    assert job.Occurs(n, name);
    assert job.Last(n, name) == second.Last(n, name);
    HeldLast(job, after, n, k);
  }

  lemma HeldLast(job: Import, after: Db, n: nat, k: Key)
    requires job.Ready() && n <= |job.rows| && job.policy == Overwrite && job.Stands(after, n)
    requires k in after.rows && k.kind == Assets && job.Occurs(n, after.rows[k].name)
    ensures job.IsRow(after.rows[k], job.Last(n, after.rows[k].name), DisplayName(after.rows[k]))
  {
    hide Valid, Import.Stands;
    job.Holder(after, n, k);
    if k in job.before.rows {
      job.StandsOld(after, n, k);
    } else {
      var i :| 0 <= i < n && job.Creates(i) && k == Key(Assets, job.ids[i]) && after.rows[k].name == job.rows[i].name;
      job.StandsNew(after, n, i);
    }
  }

  /** A stored row that is a row of the file has every value of it in its own column. */
  lemma RowColumns(job: Import, row: Row, i: nat, displayName: Option<string>)
    requires i < |job.rows| && job.IsRow(row, i, displayName)
    ensures var given := job.rows[i]; var word := Text.AsciiLower(Text.Trim(given.protocol));
      && row.AssetRow? && row.name == given.name && row.host == given.hostname && row.port == given.port
      && row.description == given.description && row.tags == Some(given.tags) && row.displayName == displayName
      && (word == "ssh" || word == "tcp")
      && (word == "ssh" ==> row.protocol == Ssh && (row.credential.Some? <==> given.credential.Some?)
                            && (given.credential.Some? ==> row.credential.value.text == given.credential.value))
      && (word == "tcp" ==> row.protocol == Tcp && row.credential == None)
  {
    hide Text.AsciiLower, Text.Trim;
  }
}
