# Hop catalog: a verified model

Hop is an SSH gateway. Its catalog is a small relational store of credentials, assets, access keys,
allowlists, ownership rows, source rows and one revision counter. Two kinds of writer change it: local
transactions from the CLI, the API and the importer, and a declarative apply that plans a manifest against
the tables and installs the plan under a revision guard. This project models the catalog, the apply engine,
the access queries, the CSV transfer, manifests and the termination of sessions, and proves what holds over
all inputs, all histories and all interleavings of them.

The same state appears in two forms. `Db` is the catalog as a value, with the schema's constraints as the
predicate `Valid`; a declarative layer says which transactions commit and what they install (`Admits` and
`Effect` for local edits, `Plannable`, `KeyClash` and `Applied` for applies). The imperative layer runs the
statements in the order the source runs them (`BuildPlan`, `ExecutePlan`, the class `Catalog`), and each of
its methods is proved equal to the declarative layer. Results about runs are lemmas on the declarative layer.

| file | what it holds |
|---|---|
| `Names`, `Text`, `Wrappers` | references, their order, strings, options and results |
| `Schema` | the tables, every CHECK, UNIQUE and foreign key, and the single statements |
| `LocalEdits`, `EditLaws`, `Catalog` | local transactions, what they demand and store column by column, and the catalog object |
| `Decisions`, `Planner` | what an apply decides about each resource, and how the planner gets there |
| `Applications`, `AppliedConstraints`, `Execution` | the state an apply installs, and the statements that install it |
| `AtomicApply`, `Summaries`, `SummaryCounts`, `Histories` | idempotence, ownership frame, summaries, runs |
| `Fates`, `Stored` | what an apply does to each resource, and what it stores, told from the tables and the manifest |
| `Convergence`, `Drift`, `Accounting`, `NoResurrection` | results over all runs |
| `Interleaving`, `Concurrency` | applies as separate reads and a guarded commit; the same results for every interleaving |
| `Counterexamples` | inputs on which stronger claims about applies fail |
| `AccessScope` | the four access queries |
| `Manifest`, `ManifestLaws`, `Config`, `ConfigLaws` | merging, reading and validating manifests; the startup configuration and what it comes to |
| `Csv`, `CsvLaws`, `Transfer`, `TransferLaws`, `Import` | the CSV codec, its laws on any text, its normal form, and the import fold |
| `Sessions`, `Bridge` | the termination protocol, and the bridge's own loop |

Some strengthenings are false of the code. For each the model keeps the code, shows an input on which it
fails, and proves exactly when it holds:

- An accepted plan can fail when it runs, because upserts precede deletes: renaming an access key does it
  (`Counterexamples.RenamingFails`). `Execution.ExecutePlan` succeeds if and only if no `KeyClash` arises, that
  is, each public key is free when its upsert runs.
- The core accepts an unrestricted new key with an allowlist (`LocalEdits.UncheckedCallBreaksInvariant`);
  `LocalEdits.EffectValid` says exactly which calls keep the invariant.
- A proxy lookup for "name.hop" need not find the asset of that name (`AccessScope.EndpointTakesTheName`);
  `AccessScope.ProxyFinds` has the exact condition for any request, `ProxyFindsByName` and
  `ProxyFindsPlainName` what it comes to for a name with and without the suffix.
- Records without fields do not survive CSV: `Csv.RecordRoundTrip` is an equivalence.
- A terminating call may be told "terminated" although the record then reads otherwise
  (`Sessions.AnswerMayBeOverwritten`). `Sessions.AnswerHoldsExactly` says when the answer holds, and
  `Sessions.TerminatedExactly` when a finished task's record reads "terminated".
- A self-contained pruning apply need not store what it declares once its source has applied a manifest that
  leaned on the catalog (`Counterexamples.DisciplineIsNeeded`). `Drift.ConvergesExactly` gives the exact
  condition for each resource, read off the catalog the apply meets. `Convergence.Converges` needs no such
  condition when every manifest ever applied under the source's name stood on its own. Nothing in the code
  enforces that: the API and the CLI take any manifest under any source name, `startup-config` included, so
  their callers have to keep it; starts do so by themselves (`StartupConfig.StartupDisciplined`).

## Model

| member | source | states |
|---|---|---|
| `Schema.WithoutValid` | crates/hop-core/src/catalog/schema_v0_2.sql:32-85 | deleting resources with their ownership rows and cascading grants keeps every constraint, provided no remaining asset refers to a deleted credential |
| `Schema.DigestsDiffer` | crates/hop-core/src/catalog/apply.rs:1038-1091 | digests tell specs apart, and those of credentials their names too |
| `LocalEdits.EffectValid` | crates/hop-core/src/catalog/runtime.rs:92-341 | a committed local edit keeps every constraint of the catalog if and only if an unrestricted new key came without assignments |
| `LocalEdits.UncheckedCallBreaksInvariant` | crates/hop-core/src/catalog/runtime.rs:92-121 | without that guarantee of the callers the invariant does fail |
| `EditLaws.AddAssetExactly` | crates/hop-core/src/catalog/runtime.rs:606-658 | a new asset is refused exactly if its word for the protocol is neither ssh nor tcp, its port is out of range, its id or name is taken, or it is an ssh asset whose credential is missing |
| `EditLaws.UpdateAssetExactly` | crates/hop-core/src/catalog/runtime.rs:318-325 | an update demands the same, and a local asset |
| `EditLaws.AssetStored` | crates/hop-core/src/catalog/runtime.rs:606-658 | each column as given: ssh with the given credential, tcp with none, the display name as it was |
| `EditLaws.EitherCase` | crates/hop-core/src/models.rs:341-349 | white space around the protocol and the case of its letters make no difference |
| `EditLaws.CredentialExactly` | crates/hop-core/src/models.rs:355-379 | a credential is refused exactly if its way to log in lacks material, its id or name is taken, or the updated one is not local |
| `EditLaws.CredentialStored` | crates/hop-core/src/catalog/runtime.rs:227-302 | user name, type and each secret in their own columns, as given |
| `EditLaws.AddKeyExactly` | crates/hop-core/src/catalog/runtime.rs:92-121 | a new key is refused exactly if its id, name, public key or fingerprint is taken or a listed asset is missing |
| `EditLaws.KeyStored` | crates/hop-core/src/catalog/runtime.rs:92-121 | a new key is enabled and granted what is listed; other keys keep their grants |
| `EditLaws.ActiveStored` | crates/hop-core/src/catalog/runtime.rs:170-184 | only the flag changes, to the given value, and the revision only if the flag does |
| `EditLaws.AccessStored` | crates/hop-core/src/catalog/runtime.rs:186-211 | only the mode changes, and the grants become those listed |
| `EditLaws.AccessExactly` | crates/hop-core/src/catalog/runtime.rs:170-211 | the key has to be local, the listed assets there, and mode all without any |
| `EditLaws.DeleteExactly` | crates/hop-core/src/catalog/runtime.rs:743-773 | a local resource goes with its ownership row and its grants, unless it is a credential an asset refers to |
| `EditLaws.EditFrame` | crates/hop-core/src/catalog/runtime.rs:606-773 | every edit leaves all but its target alone, and its target local |
| `Catalogs.ValidateAssetIds` | crates/hop-core/src/catalog/runtime.rs:660-676 | accepts exactly the id lists whose ids are all assets |
| `Catalogs.ReplaceAssignments` | crates/hop-core/src/catalog/runtime.rs:678-695 | the key's grants become exactly those listed, others stay; fails exactly when a listed asset is missing |
| `Catalogs.Catalog.AddCredential` | crates/hop-core/src/catalog/runtime.rs:227-256 | commits exactly when the edit is admitted, and then installs its effect; else leaves the catalog alone |
| `Catalogs.Catalog.UpdateCredential` | crates/hop-core/src/catalog/runtime.rs:273-302 | the same, for local credentials only |
| `Catalogs.Catalog.AddAsset` | crates/hop-core/src/catalog/runtime.rs:308-316 | the same, with protocol normalised, port checked and no credential on tcp |
| `Catalogs.Catalog.UpdateAsset` | crates/hop-core/src/catalog/runtime.rs:318-325 | the same, for local assets only; the display name stays |
| `Catalogs.Catalog.AddAuthorizedKey` | crates/hop-core/src/catalog/runtime.rs:92-121 | the same, with all assignments or none |
| `Catalogs.Catalog.SetAuthorizedKeyActive` | crates/hop-core/src/catalog/runtime.rs:170-184 | the same; the revision moves only if the flag does |
| `Catalogs.Catalog.SetAuthorizedKeyAccess` | crates/hop-core/src/catalog/runtime.rs:186-211 | the same; refuses assignments in mode all |
| `Catalogs.Catalog.DeleteLocal` | crates/hop-core/src/catalog/runtime.rs:743-773 | the same; a referenced credential is protected, grants cascade |
| `Catalogs.Catalog.GetAssetByName` | crates/hop-core/src/catalog/runtime.rs:347-353 | finds an asset of the name if and only if there is one |
| `Catalogs.Catalog.RecordApplyFailure` | crates/hop-core/src/catalog.rs:175-218 | sets the last error of one source row and changes nothing else |
| `Catalogs.Catalog.LoadTable` | crates/hop-core/src/catalog/apply.rs:1098-1148 | the table joined with ownership, by name, is what is stored |
| `Catalogs.Catalog.Install` | crates/hop-core/src/catalog/apply.rs:102-148 | with no writer in between, planning and committing succeed exactly when the plan and, if it writes, the public keys allow; the atomic outcome is installed with its summary, or the first obstacle named and no trace left; a dry run never writes |
| `Catalogs.Catalog.Apply` | crates/hop-core/src/catalog/apply.rs:87-148 | from a manifest as written: source name, expected revision, material and plan are checked in this order, success and the error of each failure are exactly characterised, and what is installed is the atomic outcome |
| `Catalogs.Catalog.Diff` | crates/hop-core/src/catalog/apply.rs:67-85 | the summary of the plan, or the error an apply would meet before writing, with the catalog untouched |
| `Planner.ValidateReferences` | crates/hop-core/src/catalog/manifest.rs:568-632 | accepts exactly when each reference is declared present, or undeclared and known to the database |
| `Planner.FinalNames` | crates/hop-core/src/catalog/apply.rs:550-575 | name by name, the names taken once the apply is done |
| `Planner.ReferencesKnown` | crates/hop-core/src/catalog/apply.rs:283-312 | validating against the names built by name agrees with the names that survive |
| `Planner.DropDeletedSurvivors` | crates/hop-core/src/catalog/apply.rs:384-390 | dropping the deleted ids leaves exactly the surviving names with their final ids, so the planner's two namespaces agree |
| `Planner.PlanDeclared` | crates/hop-core/src/catalog/apply.rs:327-375 | one declared resource extends the plan by its decision, or conflicts exactly when someone else owns it; its references always resolve |
| `Planner.PlanMissing` | crates/hop-core/src/catalog/apply.rs:599-629 | every owned, unmentioned resource is deleted when pruning, else orphaned once, and nothing else is added |
| `Planner.PlanKind` | crates/hop-core/src/catalog/apply.rs:392-476 | one table is decided completely and leaves the namespace of its surviving names |
| `Planner.ValidateCredentialDeletes` | crates/hop-core/src/catalog/apply.rs:670-708 | passes exactly when no asset, touched or not, uses a deleted credential in the end |
| `Planner.SortChanges` | crates/hop-core/src/catalog/apply.rs:544-546 | the same changes, strictly sorted by type and name |
| `Planner.BuildPlan` | crates/hop-core/src/catalog/apply.rs:272-548 | plans exactly when references, ownership and credential deletes allow, reports the first obstacle otherwise, and the plan holds the decision about every covered resource and no other |
| `Fates.PlansExactly` | crates/hop-core/src/catalog/apply.rs:272-548 | an apply can be planned if and only if every reference is to a name that will be taken, every declared name that is taken is the source's own, and no asset that stays as it is refers to a credential that leaves; the first to fail is the error |
| `Applications.AppliedNames` | crates/hop-core/src/catalog/apply.rs:283-312 | the names present after commit are exactly the planner's surviving names, under its final ids |
| `Applications.AppliedAt` | crates/hop-core/src/catalog/apply.rs:727-890 | the row and owner an apply leaves under each surviving name |
| `AppliedConstraints.CredentialsStay` | crates/hop-core/src/catalog/apply.rs:670-708 | no asset is left with a missing credential, whether or not the plan touched it |
| `AppliedConstraints.DistinctRows` | crates/hop-core/src/catalog/apply.rs:727-879 | no UNIQUE clause is broken once public keys were free at their turn |
| `AppliedConstraints.AppliedValid` | crates/hop-core/src/catalog/apply.rs:718-950 | every accepted plan that meets free public keys ends in a catalog that meets every constraint |
| `Execution.UpsertResource` | crates/hop-core/src/catalog/apply.rs:825-879 | row, grants and ownership are written together, or the first violated constraint is reported |
| `Execution.UpsertReady` | crates/hop-core/src/catalog/apply.rs:727-879 | at its turn an upsert can fail only on its public key: its references, name and source key are in order |
| `Execution.RunUpserts` | crates/hop-core/src/catalog/apply.rs:727-879 | the upserts all succeed if and only if no public key clashes at its turn |
| `Execution.MarkOrphans` | crates/hop-core/src/catalog/apply.rs:881-890 | marks exactly the planned orphans |
| `Execution.DeleteKind` | crates/hop-core/src/catalog/apply.rs:892-900 | deletes the planned resources of one kind; only a referenced credential can stop it |
| `Execution.NothingRestricted` | crates/hop-core/src/catalog/apply.rs:892-900 | once the planned assets are gone no asset refers to a credential that is to go |
| `Execution.ExecutePlan` | crates/hop-core/src/catalog/apply.rs:718-950 | run statement by statement, a plan commits if and only if no public key clashes, never inserts a dangling reference, never trips RESTRICT, and installs a valid catalog |
| `AtomicApply.OutcomeValid` | crates/hop-core/src/catalog/apply.rs:87-148 | a successful apply ends in a valid catalog |
| `AtomicApply.ApplyIdempotent` | crates/hop-core/src/catalog/apply.rs:577-648 | the same manifest applied again succeeds, reports only Unchanged, and leaves the whole catalog as it was |
| `AtomicApply.OwnershipFrame` | crates/hop-core/src/catalog/apply.rs:577-668 | rows, owners and source rows of everyone else are untouched; a foreign key's allowlist loses exactly the deleted assets and gains nothing |
| `Fates.EveryFate` | crates/hop-core/src/catalog/apply.rs:577-648 | each resource is kept, rewritten under the new generation, deleted or orphaned as its owner, its digest, its orphan mark, the manifest and the prune flag say |
| `Fates.EveryOrigin` | crates/hop-core/src/catalog/apply.rs:631-640 | what is new is a declared resource whose name was free, under its new id |
| `Fates.EveryDeclaredArrives` | crates/hop-core/src/catalog/apply.rs:631-648 | every declared resource is there afterwards |
| `Stored.WrittenColumns` | crates/hop-core/src/catalog/apply.rs:727-879 | each column of a written resource holds the declared value: secrets sealed for their own column, the credential's current id, flag and mode; tags are kept |
| `Stored.WrittenReach` | crates/hop-core/src/catalog/apply.rs:825-868 | a written access key reaches nothing if disabled, else exactly the assets of the listed names, or every asset without a list |
| `Summaries.CountsAddUp` | crates/hop-core/src/catalog/apply.rs:176-192 | the five counts add up to the number of changes |
| `Summaries.SummaryComplete` | crates/hop-core/src/catalog/apply.rs:161-196 | the change list is strictly sorted and has exactly one entry for each declared or owned resource |
| `Summaries.SummaryFaithful` | crates/hop-core/src/catalog/apply.rs:168-195 | created and deleted count exactly the rows that appear and vanish on commit; revision and generation are those installed |
| `SummaryCounts.CountsExactly` | crates/hop-core/src/catalog/apply.rs:161-196 | each of the five counts is the number of resources the catalog and the manifest put in that class, the change list says which, and revision and generation move by one exactly if some resource is not left alone |
| `SummaryCounts.OrphansMarked` | crates/hop-core/src/catalog/apply.rs:881-890 | on commit, as many owners become orphaned as the summary says |
| `SummaryCounts.RepeatReportsUntouched` | crates/hop-core/src/catalog/apply.rs:577-648 | a repeated apply reports every resource as untouched |
| `Summaries.DiffPredictsApply` | crates/hop-core/src/catalog/apply.rs:67-85 | a diff predicts the summary of an apply on the same catalog except for the dry-run flag, although new ids differ |
| `Summaries.ChangedMeansChanges` | crates/hop-core/src/catalog/apply.rs:162-166 | a plan counts as changed exactly when some resource's action is not Unchanged |
| `Histories.StepValid` | crates/hop-core/src/catalog/runtime.rs:606-773 | every committed event keeps the catalog invariant |
| `Histories.RunValid` | crates/hop-core/src/catalog/schema_v0_2.sql:19-98 | the invariant holds in every reachable state |
| `Histories.RunConstraints` | crates/hop-core/src/catalog/schema_v0_2.sql:19-85 | the same constraint by constraint: ports, credentials, names, public keys, fingerprints, grants and ownership rows |
| `Convergence.ForeignApplyKeeps` | crates/hop-core/src/catalog/apply.rs:577-668 | applies of other sources leave everything a source owns, and the grants between its own resources, in place |
| `Convergence.OwnApplyFaithful` | crates/hop-core/src/catalog/apply.rs:641-646 | after a self-contained apply each stored hash describes what is stored, also where it let the write be skipped |
| `Convergence.RunFaithful` | crates/hop-core/src/catalog/apply.rs:631-648 | this holds in every reachable state, whatever local edits, failures and foreign applies came between |
| `Convergence.Converges` | crates/hop-core/src/catalog/apply.rs:272-548 | after any history in which the source applied only self-contained manifests, a successful pruning apply leaves it owning exactly the declared resources, stored as declared, with references resolved to the current ids |
| `Stored.DeclaredColumns` | crates/hop-core/src/catalog/apply.rs:727-879 | a resource stored as declared has the declared value in each column |
| `Stored.DeclaredReach` | crates/hop-core/src/catalog/runtime.rs:402-418 | an access key stored as declared reaches what its flag and its list say |
| `Stored.ConvergedColumns` | crates/hop-core/src/catalog/apply.rs:272-548 | after any history of a disciplined source, a pruning apply leaves each declared resource its own, with the declared columns, and each key reaching as declared, written or skipped |
| `Drift.StoredExactly` | crates/hop-core/src/catalog/apply.rs:641-646 | for every successful apply on every valid catalog, a declared resource ends stored as declared if and only if it was untagged and is written, or its row and grants stood already |
| `Drift.RunUntagged` | crates/hop-core/src/catalog/apply.rs:785-812 | in every reachable catalog declared assets carry no tags |
| `Drift.ConvergesExactly` | crates/hop-core/src/catalog/apply.rs:641-646 | in every reachable catalog, whatever was applied before, a declared resource ends stored as declared if and only if it is written, or its row equals its declaration with the final credential id and its surviving grants are the final ids of the listed names |
| `Counterexamples.DisciplineIsNeeded` | crates/hop-server/src/control_api.rs:505-515 | for every source name a run from the empty catalog at whose end a self-contained pruning apply succeeds and an asset it declares keeps the id of a renamed credential |
| `Counterexamples.MovedKeyClashes` | crates/hop-core/src/catalog/apply.rs:825-900 | giving the public key of an untouched access key a new name always clashes, whether or not the old name is to be deleted |
| `Counterexamples.RenamingFails` | crates/hop-core/src/catalog/apply.rs:825-900 | an accepted plan on a valid catalog that cannot be executed |
| `Accounting.WritesRaiseRevision` | crates/hop-core/src/catalog/runtime.rs:736-741 | every content write raises the revision by one, and what does not raise it changes no content |
| `Accounting.RunBalanced` | crates/hop-core/src/catalog/apply.rs:902-926 | in every reachable state generations sum to at most the revision, successes are dated no later than it and pairwise differently, and owned rows carry no generation above their source's |
| `Accounting.SuccessesIncrease` | crates/hop-core/src/catalog/apply.rs:902-926 | a changing apply dates its success later than every success before it |
| `Accounting.AccountsNeverFall` | crates/hop-core/src/catalog/apply.rs:902-926 | over every run no source's generation or last success ever falls |
| `Accounting.SuccessesRise` | crates/hop-core/src/catalog/apply.rs:902-926 | over every run both rise strictly with each changing apply of the source's own |
| `Accounting.FailureInvisible` | crates/hop-core/src/catalog.rs:175-218 | a failed apply and its record move no content, revision, generation or success |
| `Accounting.SuccessClearsError` | crates/hop-core/src/catalog/apply.rs:902-926 | a changing apply clears the source's last error and raises its generation by one |
| `NoResurrection.RunConfines` | crates/hop-core/src/catalog/runtime.rs:678-695 | while nothing sets a restricted key's own access, no run enlarges what it is granted |
| `NoResurrection.RecreatedStaysOut` | crates/hop-core/src/catalog/schema_v0_2.sql:60-64 | an asset deleted and made again stays out of reach |
| `Interleaving.CommitIsAtomic` | crates/hop-core/src/catalog/apply.rs:118-148 | a commit that gets past the lock equals one atomic plan-and-execute on the state it locks, though its reads were separate |
| `Interleaving.NextKeepsInv` | crates/hop-core/src/catalog/apply.rs:95-148 | every read, write and commit of every party keeps the invariant that current-revision reads are current |
| `Interleaving.ExecutionSerializes` | crates/hop-core/src/catalog/apply.rs:87-148 | every interleaved execution amounts to the run of its own writes and commits as atomic events, in their order, with every change among them |
| `Concurrency.InterleavedConverges` | crates/hop-core/src/catalog/apply.rs:95-148 | in every interleaving, a commit with pruning of a source whose manifests all stand on their own leaves it owning exactly the declared resources, stored as declared |
| `Concurrency.InterleavedConvergesExactly` | crates/hop-core/src/catalog/apply.rs:95-148 | in every interleaving, what any commit leaves stored as declared is exactly what it wrote and what stood already in the catalog it locked |
| `Concurrency.ExpectedRevisionKept` | crates/hop-core/src/catalog/apply.rs:95-100 | in every interleaving, an apply that expects a revision commits at that revision or not at all |
| `Concurrency.InterleavedConfines` | crates/hop-core/src/catalog/runtime.rs:678-695 | in every interleaving, a restricted key gains no grant while no move sets its own access |
| `Concurrency.InterleavedScopeNeverGrows` | crates/hop-core/src/catalog/runtime.rs:402-418 | what the gate lets such a key use at the end it was granted at the start |
| `AccessScope.OneScope` | crates/hop-core/src/catalog/runtime.rs:355-451 | the four queries, each with its own joins and WHERE clause, have one scope: a lookup selects exactly what discovery lists and matches, and discovery lists exactly what the gate lets through |
| `AccessScope.ListAssetsForKey` | crates/hop-core/src/catalog/runtime.rs:355-373 | lists exactly the assets the gate lets the key use, strictly by name |
| `AccessScope.FindAssetForKey` | crates/hop-core/src/catalog/runtime.rs:375-451 | direct and proxy lookup find something exactly when a discovered asset matches, then the least match in the stated order, and the gate lets it through |
| `AccessScope.DirectFindsExactly` | crates/hop-core/src/catalog/runtime.rs:375-400 | direct login finds a given asset if and only if its name is the target, or its host is, no asset in scope has the name, and it is first by name of those with the host |
| `AccessScope.BestMatchUnique` | crates/hop-core/src/catalog/runtime.rs:391-392 | a lookup has only one answer |
| `AccessScope.ProxyFinds` | crates/hop-core/src/catalog/runtime.rs:426-442 | a proxy request is answered with a given asset if and only if the asset matches and no other match asked for by its endpoint comes before it |
| `AccessScope.ProxyFindsExactly` | crates/hop-core/src/catalog/runtime.rs:420-451 | a proxy request finds a given asset if and only if it has the endpoint and is first by name of those that do, or it has the name and no asset in scope has the endpoint |
| `Names.NameLessExactly` | crates/hop-core/src/catalog/runtime.rs:391-392 | names are ordered by their first difference, a name before what continues it |
| `Names.LessByLabel` | crates/hop-core/src/catalog/apply.rs:544-546 | changes are ordered by type label, then by name |
| `AccessScope.ProxyFindsByName` | crates/hop-core/src/catalog/runtime.rs:426-442 | ".hop" is stripped once, and a name so asked for finds its asset if and only if no rival endpoint takes precedence |
| `AccessScope.ProxyFindsPlainName` | crates/hop-core/src/catalog/runtime.rs:426-442 | a plain name finds its asset if and only if besides it does not end in ".hop" itself, unless it is the asset's own endpoint |
| `AccessScope.EndpointTakesTheName` | crates/hop-core/src/catalog/runtime.rs:439-441 | a catalog in which "a.hop" is answered with another asset than "a" |
| `AccessScope.ScopeNeverGrows` | crates/hop-core/src/catalog/runtime.rs:402-418 | what a restricted key reaches at the end of a run it was granted at the start, and it was there then |
| `Csv.PushRow` | crates/hop-server/src/transfer.rs:359-375 | appends the fields, escaped where needed and separated by commas, and a line feed |
| `Csv.ReadCsvRecords` | crates/hop-server/src/transfer.rs:377-408 | the loop with one character of lookahead computes the reading function |
| `Csv.RecordRoundTrip` | crates/hop-server/src/transfer.rs:359-408 | printed records over any characters are read back exactly, if and only if each has a field |
| `Csv.ReprintStable` | crates/hop-server/src/transfer.rs:359-408 | printing what was read from any text and reading it again changes nothing |
| `CsvLaws.FinalLineFeedOptional` | crates/hop-server/src/transfer.rs:403-406 | printed text less its final line feed reads back as the same records if and only if each has a field and the last is not a single empty one |
| `CsvLaws.CrLfReadsAsLf` | crates/hop-server/src/transfer.rs:394-398 | ending records in CR LF reads the same as ending them in LF |
| `CsvLaws.CarriageReturnsDropped` | crates/hop-server/src/transfer.rs:398 | a carriage return outside quotes is dropped wherever it stands |
| `CsvLaws.QuotedPart` | crates/hop-server/src/transfer.rs:386-390 | quotes may enclose any part of a field |
| `CsvLaws.UnclosedQuote` | crates/hop-server/src/transfer.rs:384-407 | quotes left open take everything to the end of the text |
| `CsvLaws.QuotesWhenNeeded` | crates/hop-server/src/transfer.rs:369-375 | a field is quoted if and only if it holds a comma, a quote or a line break |
| `CsvLaws.QuotesDoubled` | crates/hop-server/src/transfer.rs:371 | inside quotes every quote is doubled, and nothing else is changed |
| `Transfer.DecimalRoundTrip` | crates/hop-server/src/transfer.rs:245-294 | a 64-bit port survives printing and parsing |
| `TransferLaws.DecimalParses` | crates/hop-server/src/transfer.rs:290-294 | an integer that does not have 64 bits is refused |
| `TransferLaws.PlusAndZeros` | crates/hop-server/src/transfer.rs:290-294 | a plus sign and leading zeros change nothing |
| `TransferLaws.UsualDigits` | crates/hop-server/src/transfer.rs:245 | numbers are written in the usual digits |
| `TransferLaws.ParsesDigitsOnly` | crates/hop-server/src/transfer.rs:290-294 | whatever parses is an optional sign and at least one digit |
| `TransferLaws.SplitsAtSeparators` | crates/hop-server/src/transfer.rs:345-352 | a text splits at every bar and comma and nowhere else, each part trimmed and empty ones dropped |
| `TransferLaws.JoinedByBars` | crates/hop-server/src/transfer.rs:247 | tags are written with a bar between each two |
| `TransferLaws.ColumnsWritten` | crates/hop-server/src/transfer.rs:240-251 | each value is written under its own heading |
| `TransferLaws.ColumnsRead` | crates/hop-server/src/transfer.rs:288-299 | each value is read from under its own heading, and refused exactly for the number of fields or the port |
| `TransferLaws.HeaderLine` | crates/hop-server/src/transfer.rs:238 | the first line of every file |
| `TransferLaws.BlankSkipped` | crates/hop-server/src/transfer.rs:284-287 | a blank record is skipped wherever it stands |
| `TransferLaws.BadRecordRefused` | crates/hop-server/src/transfer.rs:284-300 | one bad record spoils the file |
| `Text.TrimExactly` | crates/hop-server/src/transfer.rs:345-357 | trimming cuts white space off both ends and nothing else |
| `Text.AsciiSpaces` | crates/hop-server/src/transfer.rs:348 | which ASCII characters are white space |
| `Text.AsciiLowerExactly` | crates/hop-core/src/models.rs:342 | the letters A to Z change to their lower case, and nothing else |
| `Transfer.SplitJoined` | crates/hop-server/src/transfer.rs:345-352 | canonical tags survive joining and splitting |
| `Transfer.ReadAssets` | crates/hop-server/src/transfer.rs:271-302 | skips blank records, and fails exactly on a wrong header, a wrong number of fields or a bad port |
| `Transfer.WriteAssets` | crates/hop-server/src/transfer.rs:237-254 | the header and one printed record per row |
| `Transfer.ReadWritten` | crates/hop-server/src/transfer.rs:237-302 | reading what was written gives each row in normal form |
| `Transfer.RowRoundTrip` | crates/hop-server/src/transfer.rs:237-357 | rows survive if and only if optional text is trimmed and not empty, and tags are trimmed, not empty and free of separators |
| `Transfer.ReadIsNormal` | crates/hop-server/src/transfer.rs:237-302 | for every accepted text, reading what was written from it gives the same rows again |
| `Imports.MeetExisting` | crates/hop-server/src/transfer.rs:169-178 | a row whose name is taken is skipped, reported or written over, and counted accordingly |
| `Imports.AddNew` | crates/hop-server/src/transfer.rs:179-182 | a row whose name is free is added and counted |
| `Imports.ImportRows` | crates/hop-server/src/transfer.rs:166-185 | on success every row is counted once: as imported exactly those that met no asset of their name, the others as the policy says, with their names in order if they are errors; revision and table grew accordingly; on failure the rows before the refused one stay |
| `Imports.ImportAssets` | crates/hop-server/src/transfer.rs:159-186 | the same from the text of a file; a bad file changes nothing |
| `Imports.ImportFrame` | crates/hop-server/src/transfer.rs:166-185 | everything that was there keeps id, name and owner, and what the file does not name is untouched |
| `Imports.ImportMeaning` | crates/hop-server/src/transfer.rs:166-185 | each name in the file is held once: by the last row if rows overwrite, else by the old value or, for a new name, the first row |
| `Imports.RowColumns` | crates/hop-server/src/transfer.rs:86-98 | a stored row has every value of its row of the file in its own column |
| `Imports.ReimportSameRows` | crates/hop-server/src/transfer.rs:174-177 | importing a file a second time with overwriting changes no row |
| `Manifests.MergeResources` | crates/hop-core/src/catalog/manifest.rs:163-178 | the union of two tables, unless they share a name |
| `Manifests.Merge` | crates/hop-core/src/catalog/manifest.rs:89-118 | succeeds exactly for a non-empty list of supported versions in which no resource repeats, and then gives their union; the error is that of the first manifest that cannot join |
| `Manifests.UnionUnique` | crates/hop-core/src/catalog/manifest.rs:89-118 | there is only one union |
| `Manifests.MergeOrderFree` | crates/hop-core/src/catalog/manifest.rs:89-118 | rearranging the inputs changes neither whether they merge nor the result |
| `Manifests.AllowlistPasses` | crates/hop-core/src/catalog/manifest.rs:535-553 | an allowlist is accepted exactly when its names are valid and distinct |
| `Manifests.ResolveAccess` | crates/hop-core/src/catalog/manifest.rs:517-566 | the loop over the allowlist reports the first bad name |
| `ManifestLaws.NamesAreSourceNames` | crates/hop-core/src/catalog/manifest.rs:656-682 | a resource name is what would do for a source name, led by a letter or digit |
| `ManifestLaws.SecretExactly` | crates/hop-core/src/catalog/manifest.rs:328-355 | a secret is read from the one place that is set; what is wrong otherwise |
| `ManifestLaws.AssetResolves` | crates/hop-core/src/catalog/manifest.rs:476-515 | exactly which asset declarations resolve, each field to its own place |
| `ManifestLaws.PublicKeyWords` | crates/hop-core/src/catalog/manifest.rs:634-654 | a public key is two words, the first naming the type the second encodes |
| `ManifestLaws.OneWordIsNoKey` | crates/hop-core/src/catalog/manifest.rs:634-641 | one word, or none, is no public key |
| `ManifestLaws.AllowlistRefused` | crates/hop-core/src/catalog/manifest.rs:535-553 | an allowlist is refused for its first bad name |
| `ManifestLaws.AccessResolves` | crates/hop-core/src/catalog/manifest.rs:517-566 | exactly which access declarations resolve; enabled unless they say otherwise, restricted if they list assets |
| `ManifestLaws.CredentialResolves` | crates/hop-core/src/catalog/manifest.rs:394-474 | what each kind of credential has to have and must not have, each secret to its own place |
| `ManifestLaws.CredentialAccepted` | crates/hop-core/src/catalog/manifest.rs:394-474 | nothing else is refused |
| `Manifests.ResolveMaterial` | crates/hop-core/src/catalog/manifest.rs:125-160 | succeeds exactly when the version is supported and each declaration resolves, with what they resolve to |
| `Manifests.ValidateOffline` | crates/hop-core/src/catalog/manifest.rs:120-123 | accepts exactly the manifests that resolve and refer only to resources they declare present |
| `Manifests.ResolvableResolved` | crates/hop-core/src/catalog/manifest.rs:125-160 | what resolves is fit to be applied: kinds, ports and credentials on tcp are in order |
| `Manifests.OfflineIsSelfContained` | crates/hop-core/src/catalog/manifest.rs:120-123 | what validates offline is self-contained, which is what convergence asks |
| `Manifests.MergedResolves` | crates/hop-core/src/catalog/manifest.rs:89-160 | merging and resolving commute: a merged manifest resolves exactly when its parts do, to what they resolve to |
| `Manifests.MergeKeepsOffline` | crates/hop-core/src/catalog/manifest.rs:89-123 | files each valid offline are valid offline together |
| `Manifests.FilesMayLeanOnEachOther` | crates/hop-core/src/catalog/manifest.rs:89-123 | the converse fails |
| `StartupConfig.Validate` | crates/hop-core/src/config.rs:263-306 | accepts exactly the configurations that pass the cross-checks and validate offline |
| `StartupConfig.OnlyThePortCheckAdds` | crates/hop-core/src/config.rs:263-306 | of the cross-checks only the explicit port of tcp assets adds to offline validation |
| `StartupConfig.StartupAllPresent` | crates/hop-core/src/config.rs:143-220 | the startup manifest declares exactly the configured resources, all present |
| `StartupConfig.StartupDisciplined` | crates/hop-core/src/config.rs:303-305 | a source fed by starts only has applied only self-contained manifests |
| `ConfigLaws.StartupSourceOk` | crates/hop-server/src/main.rs:743-746 | the startup source has a name an apply accepts |
| `StartupConfig.StartConverges` | crates/hop-server/src/main.rs:738-755 | if every manifest ever applied under its source name stood on its own, a start that succeeds leaves its source owning exactly the configured resources, as configured, whatever local edits, failures and applies of other sources came before |
| `ConfigLaws.StartupSpecs` | crates/hop-core/src/config.rs:143-220 | what a start asks of each resource: ssh and port 22 by default, enabled by default, the credential type told by the material |
| `ConfigLaws.StartStores` | crates/hop-server/src/main.rs:738-755 | after a start that succeeds, each configured resource is the source's own, stored column by column as configured, and each configured key reaches exactly what it says |
| `Sessions.StepKeepsInv` | crates/hop-server/src/ssh/session_registry.rs:27-53 | every step of every task and call keeps the protocol's invariant |
| `Sessions.RegistryFollowsTasks` | crates/hop-server/src/ssh/bridge.rs:104-110 | a session is registered exactly while its task relays or leaves: never once that has ended |
| `Sessions.ConsumedMeansTerminated` | crates/hop-server/src/ssh/bridge.rs:296-313 | a task that consumed a signal and wrote its record leaves it "terminated" for good, whichever writer came last |
| `Sessions.RecordExplained` | crates/hop-server/src/ssh/proxy.rs:257-268 | a finished task's record is its own verdict or that of a call whose signal reached it |
| `Sessions.TerminatedExactly` | crates/hop-server/src/ssh/bridge.rs:296-313 | once a task wrote its record, the record is its verdict until a call writes and that call's from then on; it reads "terminated" if and only if the task consumed a signal or a call wrote after it |
| `Sessions.AnswerHoldsExactly` | crates/hop-server/src/control_api.rs:426-436 | what a call wrote and answered still holds at a later time if and only if the task consumed a signal, or any record the task wrote since was written over by a call |
| `Sessions.SignalsAreConserved` | crates/hop-server/src/control_api.rs:420-438 | signals consumed or pending correspond one to one to the calls that sent them |
| `Sessions.ForgettingFindsNothing` | crates/hop-server/src/ssh/session_registry.rs:47-52 | the clean-up after an undelivered signal never removes anything |
| `Sessions.UninterruptedCallDelivers` | crates/hop-server/src/ssh/session_registry.rs:39-53 | a call that nobody interrupts delivers its signal exactly when the session is registered |
| `Sessions.SignalsNeedATask` | crates/hop-server/src/ssh/session_registry.rs:47-52 | a signal arrives exactly if the task has not ended; one that does not changes no record and is answered with no such session |
| `Sessions.AnswerMayBeOverwritten` | crates/hop-server/src/control_api.rs:426-436 | a call may be answered "terminated" although the record then reads "ok" |
| `Sessions.ActiveSessions.Register` | crates/hop-server/src/ssh/session_registry.rs:27-33 | the table after the task's registering step |
| `Sessions.ActiveSessions.Unregister` | crates/hop-server/src/ssh/session_registry.rs:35-37 | the table after the task's unregistering step, or after a call's clean-up |
| `Sessions.ActiveSessions.Terminate` | crates/hop-server/src/ssh/session_registry.rs:39-53 | given the channel's own answer, the table and the result are those of the protocol's look-up, send and clean-up steps |
| `Bridge.RunBridge` | crates/hop-server/src/ssh/bridge.rs:112-294 | of the branches that won, the first that stops the bridge decides how it ends; a signal is never turned into a failure, and a command that reported no exit is one |
| `Bridge.StopsExactly` | crates/hop-server/src/ssh/bridge.rs:212-281 | which branches stop the bridge: a signal, a close, an input or a forwarded resize the target does not take |
| `Bridge.EndingIsStep` | crates/hop-server/src/ssh/bridge.rs:296-313 | every ending is one step of the protocol's task, possible exactly if the signal it consumed was pending, and unregistering and finishing from there write the record of the epilogue |

## Left out

- SQLite itself, WAL, file checks and schema opening: queries are atomic and transactions all or nothing.
- Cryptography: an envelope is its context and plaintext under the one master key; the applied-spec digest
  and the HMACs inside it are injective; a fingerprint is a function of the key's encoded bytes.
- UUID generation: new ids are parameters, distinct and unused, with one set aside per declared resource or
  imported row; the planner draws them only for what it creates.
- Timestamps, the `secret_hmac` column, audit events, asset health, known hosts and session retention.
- Integer widths: revision and generation are unbounded; the port of a CSV row is a 64-bit integer.
- Error messages and paths; where several resources are at fault, the order in which the source meets them
  decides its message, and the model keeps the error code.
- Database errors other than constraint violations.
- `import_credentials`: it never creates and updates by id, so it would add an easier fold.
- JSON transfer, YAML and TOML parsing: library behaviour.
- Reading files and environment variables: `Host` says what they hold; decoding private and public keys is a
  table in it.
- HTTP routing and views, the TUI, PTYs, byte copying, time-outs, and the TUI's own registrations of sessions.
- The allowlist of a declared access key is a set: its names are distinct and are sorted before hashing.
- `Planner.PlanKind` builds the id map of one table in a loop of its own; the source builds it inside its
  planning loop.
- Catalogs.Catalog.Install: runs with no concurrent writer, as `Apply` and `Diff` do; `Interleaving` splits an
  apply into its reads and its commit and proves the commit equal to it.
- `Interleaving`: a commit past the lock is constrained to the executed plan only if the plan was made from
  reads of one state; that it always is is what `Interleaving.CommitIsAtomic` proves.
- `Sessions`: a task that fails to start a session record registers nothing and is not modelled.
- Bridge.RunBridge: which select branch wins is an input, as it is up to the runtime; `Bridge.EndingIsStep` ties
  the ending to the pending signals. The proxy's two copy loops are only steps of `Sessions`.
- Sessions.ActiveSessions.Terminate: whether the channel delivers is an input, tied to the world it happens in.
