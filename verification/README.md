# FinDB operations, modelled in Dafny

FinDB keeps market data. This project models the parts of its operation where a mistake is expensive: loading a seed
into a database with foreign keys, rotating credentials, moving evidence from a remote host in bounded chunks, building
and writing out release bundles, reconciling the dataset registry, limiting request rates, guarding an infrastructure
plan, waiting for runtimes to recover, and accepting an archive release. Loops, tables and objects that the programs
update in place are methods and classes here; each is proved against a specification, and the theorems are about the
specifications, over every input and every run.

`dafny verify dfyconfig.toml` checks the whole project.

## What is proved, component by component

**Table order and seed load** (`TableSort`, `TableSortTheory`, `SeedLoad`, `SeedLoadTheory`, `SeedFileTheory`). Kahn's
algorithm with mutable indegrees and a re-sorted ready list is proved equal to a recursive specification. The result
is a permutation, the emitted part is the lexicographically least parents-first order, and the fallback is the
greatest set whose members hold each other back. Loading the sorted tables in batches then fails on no reference
between tables, and gives the database that row-at-a-time upserts give. Self-references are ignored by the sort; a row
whose parent comes in a later batch of its own file is refused, so the success of a load is stated as an equivalence:
the file of each table is in order, which is a condition on the positions of its rows. A table is a finite map from
primary keys to rows. The database refuses a statement that updates one row twice and one that leaves a written row
with a dangling reference, as PostgreSQL does.

**Credentials** (`CredentialRows`, `DeploymentCredentials`, `FetcherCredentials`, their theories,
`DeploymentOutcomes`, `FetcherOutcomes`). A call on the credential table is a transition; secrets enter as hashes, and
clock readings and fresh identifiers are inputs of a call. The invariants hold over any run with a nondecreasing
clock. The fetcher variant carries scopes over on rotation and drops retired ones on the next run, so the run right
after a rotation can still report an update. `RerunIsUnchangedIff` gives the exact condition for a whole session, and
the fixed point is reached one run later.

**Evidence transport and target date** (`Base64`, `Base64Theory`, `Transport`, `TransportTheory`, `TargetScan`,
`TargetScanTheory`). Base64 is section 4 of RFC 4648; decoding is strict, as in Python 3.13 with validation switched
on. Compression is a pair with an inverse, the hash a function. Days are day numbers and closing times instants that
come with the calendar.

**Release bundles** (`ContractManifest`, `BundlePaths`, `SourcePins`, `ReleaseBundle`, `ReleaseBundleTheory`,
`SourceDigestTheory`, `BundleOutcomes`). Contract paths are parsed character by character. The fixed file lists of
both units are concrete, kept as directories and dotted pieces of a file name. The disk may answer differently at
every physical read; when a build succeeds is stated for any such disk, and for a tree that does not change. Hashing,
JSON text and tar bytes are a codec with inverse laws, the one for tar being about regular files in canonical modes
under plain paths; an archive is the list of its members; the write loop runs against a device that may take any
number of bytes. Modes are 0755 (493) and 0644 (420).

**Registry** (`JsonValues`, `ConfigMerge`, `Registry`, `RegistryTheory`, `RegistryRun`, `RegistryOutcomes`). Equality
is Python's, for which true, 1 and 1.0 are the same value. Known object keys are constructors, every other key carries
its text. The seed declarations are an input with the properties that the declared ones have: an expectation with a
missing-delivery policy and without source overrides, governance without the retired limit, no staging marker, no
legacy key. The delivery policy model `DeliveryExpectation` is not part of this model; it is a predicate on
expectations and a predicate on an expectation and a source. It refuses null, as a pydantic model does
(`backend/app/services/delivery_policy.py:325-329` hands a value that is not an object on unchanged), and that law
makes a second run change nothing. As an aside, a policy that accepted null would break it: the merge turns a stored
null expectation into the empty object, which the next run fills from the seed.

**Rate limiter** (`RateLimiter`, `RateLimiterTheory`), **plan guard** (`PlanGuard`, `PlanGuardTheory`), **recovery
poller** (`RecoveryPoller`), **archive manifests** (`ArchiveManifest`, `ArchiveManifestTheory`, `ArchiveOutcomes`). The limiter refines
one that never forgets a call. A window holds the calls after `now - window`, so two calls exactly one window apart do
not share it. The guard's objects keep their fields in file order. The poller reads an endless sequence of
observations whose clock never goes back and whose sleeps last at least as long as requested. Months are dates on the
first day; a date has a year up to 9999.

`Results`, `Selections`, `SequenceFacts` and `Sorting` hold options and results, row selections, facts about lists, and
sorting by a total order.

## Model

| member | source | states |
|---|---|---|
| `TableSort.SortTablesByFk` | backend/scripts/seed_upsert.py:265-307 | the returned tables carry exactly the keys that the specification orders, and a repeated key stands for its last entry |
| `TableSort.Index` | backend/scripts/seed_upsert.py:269-271 | the two dictionaries hold the last entry and last position of every key |
| `TableSort.BuildDependencies` | backend/scripts/seed_upsert.py:273-282 | the dependency sets are the in-set parents without self-edges and duplicates, and the reverse sets are the same graph turned round |
| `TableSort.EmitKeys` | backend/scripts/seed_upsert.py:284-298 | the loop over the mutable indegrees and the re-sorted ready list emits what Kahn's algorithm on a waiting list emits |
| `TableSort.ReleaseChildren` | backend/scripts/seed_upsert.py:294-297 | after counting down the children each indegree is again the number of unfinished parents, and exactly the children that wait for nothing are ready |
| `TableSort.SortKeys` | backend/scripts/seed_upsert.py:284-305 | emitted keys first, then the held-back keys in their original order |
| `TableSortTheory.SortIsPermutation` | backend/scripts/seed_upsert.py:273-307 | for any edge list every key comes out exactly once; with distinct keys the result is a permutation |
| `TableSortTheory.EmittedFollowParents` | backend/scripts/seed_upsert.py:291-298 | each emitted table stands after every table of the artifact that one of its edges names |
| `TableSortTheory.FallbackIsLargestHeldBackSet` | backend/scripts/seed_upsert.py:300-305 | the tables left to the fallback are the greatest set in which every member has a parent inside the set, in original order |
| `TableSortTheory.AllEmittedIffAcyclic` | backend/scripts/seed_upsert.py:300-305 | the fallback is empty if and only if the foreign keys, self-references aside, have no cycle |
| `TableSortTheory.SortIsLexicographicallyLeast` | backend/scripts/seed_upsert.py:285-298 | among all lists that put parents first the emitted one is lexicographically least by original position |
| `TableSortTheory.SortIsIdempotent` | backend/scripts/partial_dump.py:443-478 | sorting an already sorted table list gives it back, with or without cycles |
| `SeedLoad.UpsertRows` | backend/scripts/seed_upsert.py:337-354 | batches in file order, every one but the last of exactly the chunk size and the last not empty; the processed count is the file length; the database is the one that loading batch after batch gives |
| `SeedLoad.UpsertTable` | backend/scripts/seed_upsert.py:325-354 | a table without primary key fails before its first row; otherwise the loop's result, with the rows read and the rows written or inserted |
| `SeedLoad.LoadTables` | backend/scripts/seed_upsert.py:390-403 | table after table in the given order, stopping at the first error |
| `SeedLoad.RunUpsert` | backend/scripts/seed_upsert.py:386-403 | the sorted tables are loaded in one transaction; on an error the database is the one before |
| `SeedLoadTheory.LoadRowsRefinesUpsertAll` | backend/scripts/seed_upsert.py:337-376 | if references to other tables resolve, the batches go through exactly when each is clean by itself, and then equal row-at-a-time upserts for any chunk size |
| `SeedLoadTheory.LoadAllIffClean` | backend/scripts/seed_upsert.py:390-403 | in a parents-first order the load succeeds if and only if every table's own batches are clean, and yields the row-by-row database |
| `SeedLoadTheory.SortedLoadIsReferentiallySafe` | backend/scripts/seed_upsert.py:265-403 | for acyclic declared foreign keys and references that resolve in the artifact or the database, the sorted load fails on no reference between tables |
| `SeedLoadTheory.BatchKeepsConsistent` | backend/scripts/seed_upsert.py:357-376 | a batch that is accepted leaves no dangling reference anywhere in a consistent database |
| `SeedLoadTheory.LoadAllKeepsConsistent` | backend/scripts/seed_upsert.py:390-403 | the same after any number of tables |
| `SeedLoadTheory.UpsertAllIsOverlay` | backend/scripts/seed_upsert.py:365-373 | an upsert lays the rows over the table where it updates and under it where it does nothing |
| `SeedLoadTheory.LoadedTablesHoldTheirFiles` | backend/scripts/seed_upsert.py:357-403 | after a load each table holds, under every key of its file, the last row of the key where it updates and the stored or else the first row where it does nothing; all other rows and tables are as they were |
| `SeedLoadTheory.SecondRunChangesNothing` | backend/scripts/seed_upsert.py:337-403 | loading the same artifact again succeeds and leaves the database as it is |
| `SeedLoadTheory.SelfReferenceNeedsItsParentByTheEndOfTheBatch` | backend/scripts/seed_upsert.py:276-278 | self-edges are ignored by the sort, so a row whose parent comes in a later batch of the same file is refused: a concrete input |
| `SeedFileTheory.LoadExecutesTheCut` | backend/scripts/seed_upsert.py:337-354 | the load of a file is the execution of its one cut into full batches of the chunk size and a rest, one statement a batch |
| `SeedFileTheory.CleanIffInOrder` | backend/scripts/seed_upsert.py:337-376 | the batches of a file are clean if and only if, counted in chunks of the given size, no chunk updates a key twice and every self-reference of a written row names a stored key or a row standing no later than the end of that row's chunk |
| `SeedFileTheory.SortedLoadSucceedsIffFilesAreInOrder` | backend/scripts/seed_upsert.py:265-403 | for acyclic foreign keys and supplied references between tables, the sorted load succeeds if and only if every file is in order in that positional sense |
| `DeploymentCredentials.ApiKeyTable.ReconcileMachineCredential` | backend/scripts/reconcile_deployment_credentials.py:144-230 | the table and the outcome are those of the transition function; an error leaves the table as it was |
| `DeploymentCredentials.ApiKeyTable.ReconcileDeploymentCredentials` | backend/scripts/reconcile_deployment_credentials.py:243-282 | all specs or none: any error, and check-only mode, restores the rows |
| `DeploymentCredentials.ApiKeyTable.ApplyCredentialPolicy` | backend/scripts/reconcile_deployment_credentials.py:124-141 | every policy field gets the desired value and the result says whether one differed |
| `DeploymentCredentialsTheory.StepCases` | backend/scripts/reconcile_deployment_credentials.py:155-230 | a successful call relabels one row, appends one, or revokes one and appends its successor; nothing else |
| `DeploymentCredentialsTheory.StepKeepsInvariant` | backend/scripts/reconcile_deployment_credentials.py:144-230 | any call keeps identifiers and hashes unique, one active row a name, links to earlier rows revoked at the successor's creation, and one successor a row |
| `DeploymentCredentialsTheory.RunKeepsInvariant` | backend/scripts/reconcile_deployment_credentials.py:144-230 | the same over any run with a clock that never goes back, failing calls included |
| `DeploymentCredentialsTheory.RetiredHashStaysRetired` | backend/scripts/reconcile_deployment_credentials.py:120-230 | a hash that is revoked or expired never becomes active again, under any name |
| `DeploymentCredentialsTheory.TransactionsKeepInvariant` | backend/scripts/reconcile_deployment_credentials.py:264-279 | the same invariant and append-only history over any number of transactions, where a failed one leaves the table alone |
| `DeploymentCredentialsTheory.RetiredHashStaysRetiredForGood` | backend/scripts/reconcile_deployment_credentials.py:264-279 | over any number of transactions a hash that was once revoked or expired never belongs to an active row again |
| `DeploymentCredentialsTheory.RotationChainsEnd` | backend/scripts/reconcile_deployment_credentials.py:201-225 | rotation links are acyclic and each joins a row to one revoked at the instant it was created |
| `DeploymentCredentialsTheory.SuccessHolds` | backend/scripts/reconcile_deployment_credentials.py:155-230 | after a success the spec has exactly one active row, non-expiring, with the secret's hash and the spec's kind |
| `DeploymentCredentialsTheory.OtherSpecsDoNotTouch` | backend/scripts/reconcile_deployment_credentials.py:264-279 | a successful call for another spec uses another secret and leaves the holder alone |
| `DeploymentCredentialsTheory.CommittedTransactionHoldsEverySpec` | backend/scripts/reconcile_deployment_credentials.py:264-279 | a committed transaction had pairwise distinct secrets, and every spec holds its own at the end |
| `DeploymentCredentialsTheory.RerunReportsUnchanged` | backend/scripts/reconcile_deployment_credentials.py:264-279 | rerunning with the same secrets changes no row and reports every credential as unchanged |
| `DeploymentCredentialsTheory.DeploymentSpecsAreIndependent` | backend/scripts/reconcile_deployment_credentials.py:44-117 | the three deployed specs have distinct names and none is a legacy name of another, so the results apply to them |
| `DeploymentOutcomes.UndecidedOutcome` | backend/scripts/reconcile_deployment_credentials.py:94-170 | the format error and the ambiguity error, each if and only if: two rows with the hash or two live rows with the name |
| `DeploymentOutcomes.KnownSecretOutcome` | backend/scripts/reconcile_deployment_credentials.py:172-199 | for a secret that one row holds, success, each action and each error, if and only if, from the row's name, kind, revocation and expiry and the other live rows of the name |
| `DeploymentOutcomes.NewSecretOutcome` | backend/scripts/reconcile_deployment_credentials.py:201-230 | for a secret that no row holds: rotated if a live row has the name, created if none has, refused if the identifier is taken |
| `DeploymentOutcomes.ResultingRows` | backend/scripts/reconcile_deployment_credentials.py:124-230 | every field of every row after a call: which row changed, what it keeps, and the owner, tier, limits, scopes, description, role and fingerprint that it gets |
| `DeploymentOutcomes.TransactionInSteps` | backend/scripts/reconcile_deployment_credentials.py:264-279 | a transaction succeeds if and only if each call does on the table left by the calls before it, and reports their actions or the first error |
| `DeploymentOutcomes.CommittedTransactionInPlainTerms` | backend/scripts/reconcile_deployment_credentials.py:264-279 | after a commit each spec has one live row, without expiry, with its secret, its kind and every field of its policy |
| `DeploymentOutcomes.FormerRowIsAdopted` | backend/scripts/reconcile_deployment_credentials.py:109-117 | a live row that holds the secret under the name it had before, for each of the three credentials and both targets, is adopted |
| `FetcherCredentials.SourceClientTable.ReconcileSourceCredential` | backend/scripts/reconcile_fetcher_credentials.py:168-234 | the table and the outcome are those of the transition function; an error leaves the table as it was |
| `FetcherCredentials.SourceClientTable.ReconcileInSession` | backend/scripts/reconcile_fetcher_credentials.py:257-292 | hashes are checked for form, completeness and reuse before any row is touched, then all specs or none |
| `FetcherCredentialsTheory.DesiredDatasetsFixed` | backend/scripts/reconcile_fetcher_credentials.py:129-165 | bringing a scope list up to date twice is bringing it up to date once |
| `FetcherCredentialsTheory.RunKeepsInvariant` | backend/scripts/reconcile_fetcher_credentials.py:168-234 | over any run hashes stay unique, a name has one active row, the rate limit never drops along a rotation link, and no row is lost, changes its identity or becomes active again |
| `FetcherCredentialsTheory.RetiredHashStaysRetired` | backend/scripts/reconcile_fetcher_credentials.py:125-234 | a hash that is revoked or expired never becomes active again, under any name |
| `FetcherCredentialsTheory.CommittedSessionHoldsEverySpec` | backend/scripts/reconcile_fetcher_credentials.py:264-292 | a committed session leaves every spec with exactly one active row that carries its hash |
| `FetcherCredentialsTheory.RerunSettles` | backend/scripts/reconcile_fetcher_credentials.py:129-165 | rerunning the same hashes rotates and creates nothing and settles every policy |
| `FetcherCredentialsTheory.FixedPointAfterOneMoreRun` | backend/scripts/reconcile_fetcher_credentials.py:201-234 | the second run after a committed session is a fixed point: the third changes nothing |
| `FetcherCredentialsTheory.SessionSettlesIff` | backend/scripts/reconcile_fetcher_credentials.py:264-292 | after a committed session every policy is final if and only if no row that it rotated away listed a dataset outside its spec |
| `FetcherCredentialsTheory.RerunIsUnchangedIff` | backend/scripts/reconcile_fetcher_credentials.py:201-292 | the run after a committed session reports every credential as unchanged if and only if each row active in the starting table under a spec's name with another hash lists only datasets of that spec |
| `FetcherCredentialsTheory.RotationCanNeedOneMoreRun` | backend/scripts/reconcile_fetcher_credentials.py:201-234 | a concrete table on which the run after a rotation still reports an update |
| `FetcherCredentialsTheory.DeployedSpecsQualify` | backend/scripts/reconcile_fetcher_credentials.py:76-101 | the deployed specs have distinct sources, names and datasets, so the results apply to them |
| `FetcherOutcomes.UndecidedOutcome` | backend/scripts/reconcile_fetcher_credentials.py:119-189 | the hash error and the ambiguity error, each if and only if |
| `FetcherOutcomes.KnownHashOutcome` | backend/scripts/reconcile_fetcher_credentials.py:191-199 | for a hash that one row holds, success, each action and each error, if and only if, from the row's names, revocation and expiry and the other live rows of the name |
| `FetcherOutcomes.NewHashOutcome` | backend/scripts/reconcile_fetcher_credentials.py:201-234 | for a hash that no row holds: rotated if a live row has the name, created if none has, refused if the identifier is taken |
| `FetcherOutcomes.ResultingRows` | backend/scripts/reconcile_fetcher_credentials.py:129-234 | every field of every row after a call: the larger of both limits, the window of 60, the spec's owner, description and fingerprint, and which datasets stand in the scope list and in which order |
| `FetcherOutcomes.SessionInSteps` | backend/scripts/reconcile_fetcher_credentials.py:264-268 | a session succeeds if and only if each call does on the table left by the calls before it, and reports their actions or the first error |
| `FetcherOutcomes.CommittedSessionInPlainTerms` | backend/scripts/reconcile_fetcher_credentials.py:264-292 | after a commit each spec has one live row, without expiry, with its hash and its policy, whose limit and scopes come from the spec and the row of the starting table that it updated or replaced |
| `FetcherOutcomes.InputsMatchIff` | backend/scripts/reconcile_fetcher_credentials.py:264-268 | the inputs are accepted if and only if there is a hash for each spec and for nothing else, and no two are equal |
| `FetcherOutcomes.SessionHoldsItsInputs` | backend/scripts/reconcile_fetcher_credentials.py:249-292 | after a commit the live row of each spec carries the hash that came under the spec's own variable |
| `Base64.DecodeEncode` | infra/acceptance/collect_staging_feed_evidence.py:313-313 | strict decoding inverts the encoding of section 4 of RFC 4648, on every byte list |
| `Base64.EncodeSplits` | infra/acceptance/collect_staging_feed_evidence.py:117-121 | encoding may be cut after any multiple of three bytes |
| `Base64.EncodedLength` | infra/acceptance/collect_staging_feed_evidence.py:300-300 | the encoded length is four for every started group of three |
| `Base64Theory.TableIs` | infra/acceptance/collect_staging_feed_evidence.py:313-313 | each six-bit value has its character of table 1 of RFC 4648 |
| `Base64Theory.EncodingSpells` | infra/acceptance/collect_staging_feed_evidence.py:117-121 | every three bytes are spelled by four table characters, most significant bits first, and the rest with zero bits and padding |
| `Base64Theory.DecodesIffStrict` | infra/acceptance/collect_staging_feed_evidence.py:313-313 | a text is decoded if and only if it consists of full groups of table characters with at most two pads at the end |
| `Base64Theory.UnpaddedIsItsEncoding` | infra/acceptance/collect_staging_feed_evidence.py:313-313 | a text without padding decodes to the bytes that it encodes |
| `Transport.SsmProbe` | infra/acceptance/collect_staging_feed_evidence.py:356-398 | the collector's loop, with its order and identity checks on every response, computes the specified outcome |
| `TransportTheory.ChunkCount` | infra/acceptance/collect_staging_feed_evidence.py:300-305 | the chunk count is ceil(n / 12000), and 2 MiB never need more than 175 chunks |
| `TransportTheory.ExportFailsOnlyOnSizeOrPayload` | infra/acceptance/collect_staging_feed_evidence.py:149-158 | the exporter's chunk check cannot fire after its size check |
| `TransportTheory.SliceEncodes` | infra/acceptance/collect_staging_feed_evidence.py:306-312 | each encoded slice has exactly the length that the decoder demands |
| `TransportTheory.ChunksReassemble` | infra/acceptance/collect_staging_feed_evidence.py:114-121 | for every payload within budget the encoded slices, joined, are the encoded whole |
| `TransportTheory.ExportedPayloadIsReceived` | infra/acceptance/collect_staging_feed_evidence.py:289-398 | whatever is exported is returned by the collector |
| `TransportTheory.AcceptedPayloadIsTheExportedOne` | infra/acceptance/collect_staging_feed_evidence.py:313-332 | whatever the reads return, an accepted payload is the exported one, without hash collisions |
| `TransportTheory.ExportIs` | infra/acceptance/collect_staging_feed_evidence.py:140-171 | when an export succeeds, and every field of its envelope |
| `TransportTheory.ChunkIs` | infra/acceptance/collect_staging_feed_evidence.py:114-121 | chunk number i holds the encoding of the 12,000 bytes at its place, or of what is left |
| `TransportTheory.AcceptedIs` | infra/acceptance/collect_staging_feed_evidence.py:289-398 | the collector returns a payload if and only if the envelope keeps the budgets, every chunk comes under its own number with its exact size, and sizes, hashes and decoding agree at each step |
| `TargetScan.Scan` | infra/acceptance/collect_staging_feed_evidence.py:457-477 | the latest open and already closed session at or before the candidate, every later day readable and not completed, or none |
| `TargetScan.ExpectedTarget` | infra/acceptance/collect_staging_feed_evidence.py:412-480 | the scan's date under fresh, well-formed calendar evidence, nothing otherwise |
| `TargetScan.LaterObservationNeverGoesBack` | infra/acceptance/collect_staging_feed_evidence.py:446-477 | for one calendar a later observation never expects an earlier date |
| `TargetScan.TargetIsUnique` | infra/acceptance/collect_staging_feed_evidence.py:454-477 | at most one date meets the specification |
| `TargetScanTheory.CandidateIs` | infra/acceptance/collect_staging_feed_evidence.py:446-456 | from the hour and minute in Taipei: which day is the newest due one, for each provider |
| `TargetScanTheory.ExpectedIs` | infra/acceptance/collect_staging_feed_evidence.py:412-480 | the expected date in plain terms: evidence at most five minutes off, a trustworthy calendar, an open session that is over at most thirteen days before the newest due day, every later day listed and giving nothing |
| `ContractManifest.ParseContracts` | infra/deploy/release_manifest.py:431-475 | accepted exactly if the list is nonempty, every entry is well-formed and no identity repeats; versions and digest are those of the sorted list |
| `ContractManifest.ParsePrinted` | infra/deploy/release_manifest.py:36-38 | the path pattern matches the path printed for any id and version, and yields them back |
| `ContractManifest.PrintParsed` | infra/deploy/release_manifest.py:451-457 | no other text is accepted for an id and a version |
| `ContractManifest.SchemaPathsAreInjective` | infra/deploy/release_manifest.py:451-461 | schema paths are injective in id and version |
| `ContractManifest.IdentityIgnoresOrder` | infra/deploy/release_manifest.py:463-475 | any permutation of the list has the same versions and the same digest |
| `ContractManifest.AcceptanceIgnoresOrder` | infra/deploy/release_manifest.py:436-462 | any permutation of an accepted list is accepted |
| `ContractManifest.CanonicalListIsSortedByKey` | infra/deploy/release_manifest.py:464-470 | the canonical list is the one arrangement that is sorted by id and version |
| `ContractManifest.EqualDigestsMeanEqualContracts` | infra/deploy/release_manifest.py:463-475 | without collisions two accepted lists have one digest if and only if they hold the same contracts |
| `BundleOutcomes.AcceptableIs` | infra/deploy/release_manifest.py:422-464 | accepted are nonempty lists of entries whose path is built from id and version, without a repeated identity |
| `BundleOutcomes.IdentityIs` | infra/deploy/release_manifest.py:455-475 | the identity is the ascending list of labels and the hash of the entries arranged by id and version |
| `BundlePaths.ComponentsOfText` | infra/deploy/release_manifest.py:363-374 | splitting the text of a well-formed path at its slashes gives its directories and file back |
| `BundlePaths.TextIsInjective` | infra/deploy/release_manifest.py:79-117 | two well-formed paths have one text if and only if they are equal |
| `BundlePaths.NoFileIsADirectory` | infra/deploy/release_manifest.py:984-1003 | no file of a bundle stands where another one needs a directory |
| `BundlePaths.FixedFilesFacts` | infra/deploy/release_manifest.py:79-117 | the fixed files of both units are well-formed and pairwise different |
| `BundlePaths.NamesFacts` | infra/deploy/release_manifest.py:235-246 | all names of a bundle are different, safe relative texts of plain paths that do not get into each other's way |
| `BundlePaths.ModesAre` | infra/deploy/release_manifest.py:121-138 | programs of a bundle get mode 0755, everything else, schemas included, 0644 |
| `BundleOutcomes.SafeIs` | infra/deploy/release_manifest.py:363-374 | a name is safe if and only if it has no backslash and nothing empty, dot or dot-dot between slashes |
| `ReleaseBundle.SourceBundleReader.Read` | infra/deploy/release_manifest.py:178-187 | bytes are returned exactly if the path is safe and either pinned or answered by the disk; a path is read from disk at most once, and every later read returns the pinned bytes, whatever the disk answers by then |
| `ReleaseBundle.SourceBundleReader.DeploymentDigest` | infra/deploy/release_manifest.py:194-203 | defined exactly if every fixed file of the unit can be read in its turn; the digest over their pinned bytes in sorted order |
| `SourceDigestTheory.SourceDigestOfListing` | infra/deploy/release_manifest.py:194-203 | the digest is the hash of the one ascending listing of the unit's files with the hash of each file's bytes |
| `SourceDigestTheory.SourceDigestIffSameFiles` | infra/deploy/release_manifest.py:194-203 | short of a hash collision two sets of files have one digest if and only if they agree on every fixed file |
| `ReleaseBundle.SourceBundleReader.LoadContracts` | infra/deploy/release_manifest.py:205-222 | contracts are returned if and only if the contract manifest and every schema can be read in turn, the entries are acceptable, and every schema has its checksum |
| `ReleaseBundle.BuildBundle` | infra/deploy/release_manifest.py:716-746 | a bundle is returned if and only if the manifest is one for the unit, every file can be read in its turn and all that was read fits together; everything in it comes from the reader's final snapshot |
| `ReleaseBundle.CheckBudgets` | infra/deploy/release_manifest.py:785-793 | the running total with its early exits decides the three size budgets |
| `ReleaseBundle.ValidateBundle` | infra/deploy/release_manifest.py:764-852 | a manifest is returned exactly if some manifest meets every condition on the bytes, members, names, modes, checksums and fields |
| `ReleaseBundle.ValidateBody` | infra/deploy/release_manifest.py:827-849 | the checks after the two manifests are known decide the declared conditions |
| `ReleaseBundle.OutputRoot.WriteFile` | infra/deploy/release_manifest.py:984-1015 | short writes are continued: on success the tree gains exactly this file with this content and mode, and a device that makes progress succeeds |
| `ReleaseBundleTheory.BuiltBundleIsAcceptedIffWithinBudgets` | infra/deploy/release_manifest.py:716-852 | whatever the build returns is accepted by the validator if and only if it keeps the size budgets, and the manifest is read back |
| `ReleaseBundleTheory.StableTreeBuildsIffConsistent` | infra/deploy/release_manifest.py:716-746 | on a tree that nobody changes a build succeeds if and only if the tree has every file of the bundle and manifest, contracts, checksums, source digest and topology fit together there |
| `ReleaseBundleTheory.StableTreeIsPacked` | infra/deploy/release_manifest.py:716-746 | what such a build packs are the bytes of the tree |
| `BundleOutcomes.ConsistentIs` | infra/deploy/release_manifest.py:514-648 | when manifest, contracts and files fit together, field by field |
| `BundleOutcomes.AcceptsIs` | infra/deploy/release_manifest.py:764-852 | the accepted archives in plain terms: sizes, proper members under exactly the declared names, manifest, contracts, checksums and digest |
| `SourceDigestTheory.AcceptedArchivesHoldTheSameFiles` | infra/deploy/release_manifest.py:764-852 | short of a hash collision two accepted archives with one manifest hold the same files with the same bytes |
| `ReleaseBundleTheory.MaterializeBundle` | infra/deploy/release_manifest.py:855-899 | an accepted bundle is written out completely, and the tree is the canonical manifest plus all other members |
| `ReleaseBundleTheory.MaterializedTreeIsTheSnapshot` | infra/deploy/release_manifest.py:716-899 | a built bundle becomes exactly the manifest's text and the pinned bytes under every other name, in canonical modes, and no other file |
| `ConfigMerge.MergeMapping` | backend/scripts/seed_data.py:447-454 | the loop over the override keys, in any order, computes the deep merge |
| `ConfigMerge.MergeOperatorConfig` | backend/scripts/seed_data.py:431-481 | the loop over the stored keys computes the merged configuration, the seed's where nothing is stored |
| `ConfigMerge.KeysHaveOneOwner` | backend/scripts/seed_data.py:411-457 | contract keys are the seed's and retired keys never come back, by name; every other key is the operator's where it is stored and the seed's where it is not |
| `ConfigMerge.GovernanceIsMerged` | backend/scripts/seed_data.py:459-463 | stored governance loses the retired limit; all its other leaves win and the seed's fill in |
| `ConfigMerge.ExpectationIsMerged` | backend/scripts/seed_data.py:464-478 | the stored missing-delivery policy stands as a whole unless it is the one historical policy; beside it the operator's leaves win and the seed's fill in |
| `ConfigMerge.MergeIsIdempotent` | backend/scripts/seed_data.py:447-454 | merging the result over the same defaults gives the result, for any nested values |
| `ConfigMerge.OverrideLeavesSurvive` | backend/scripts/seed_data.py:447-454 | every leaf of the overrides is found unchanged in the merge |
| `ConfigMerge.MergedLeavesHaveASource` | backend/scripts/seed_data.py:447-454 | every leaf of the merge is an override's or a default's |
| `ConfigMerge.DefaultLeavesFillIn` | backend/scripts/seed_data.py:447-454 | every default leaf on which the overrides are silent is found in the merge |
| `ConfigMerge.OperatorLeavesSurvive` | backend/scripts/seed_data.py:464-478 | every operator leaf under the delivery expectation survives, but for the one historical policy |
| `ConfigMerge.MergeSettles` | backend/scripts/seed_data.py:431-481 | seeding is idempotent on every stored configuration |
| `Registry.ProvisionTaifex` | backend/scripts/provision_registry.py:274-304 | refuses malformed, unknown or changed pilot policies, otherwise removes the marker, restores the neutral expectation and requires the full market |
| `Registry.ProvisionFinlab` | backend/scripts/provision_registry.py:102-172 | removes exactly the former pilot override and reports the states around it |
| `RegistryTheory.FinlabTouchesOnlyTheOverride` | backend/scripts/provision_registry.py:140-151 | every other leaf of the configuration is kept and none is added |
| `RegistryTheory.FinlabRemovesThePilot` | backend/scripts/provision_registry.py:140-172 | no pilot override is left, and the rewrite is idempotent |
| `RegistryTheory.TaifexRestoresTheNeutralPolicy` | backend/scripts/provision_registry.py:290-303 | an accepted pilot loses its marker, regains the seed's expectation and requires the full market without enabling it |
| `RegistryTheory.TaifexTouchesNothingElse` | backend/scripts/provision_registry.py:290-303 | every other leaf of the configuration is kept and none is added |
| `RegistryTheory.TaifexIsIdempotent` | backend/scripts/provision_registry.py:274-304 | rewriting a rewritten configuration changes nothing |
| `RegistryTheory.FinalIsAFixedPoint` | backend/scripts/provision_registry.py:195-236 | reconciling a result again succeeds if and only if the policy accepts it, and then gives it back |
| `RegistryTheory.RewritesNeverRestore` | backend/scripts/provision_registry.py:224-236 | a rewritten configuration differs from the stored one, so no noted change is undone later |
| `RegistryOutcomes.SameIs` | backend/scripts/provision_registry.py:85-91 | equality of stored values as Python has it: numbers and truth values by number, lists item by item, objects key by key |
| `RegistryOutcomes.TaifexAcceptsIff` | backend/scripts/provision_registry.py:274-300 | the futures rewrite goes through if and only if both flags are there and the row is unmarked or exactly as the pilot left it |
| `RegistryOutcomes.ReconcilesIff` | backend/scripts/provision_registry.py:193-215 | a stored value reconciles if and only if it is an object or null, its merge meets the delivery policy and its rewrite understands it |
| `RegistryOutcomes.FuturesOutcome` | backend/scripts/provision_registry.py:224-232 | after a run the futures row has no marker; if its merge had one it has the seed's expectation, the full market required and not enabled, and every other leaf of the merge; otherwise it is the merge |
| `RegistryOutcomes.EquityOutcome` | backend/scripts/provision_registry.py:234-239 | after a run the equity row has no pilot override; only that override, and its section if nothing else was in it, is gone from the merge |
| `RegistryOutcomes.FinlabReportIs` | backend/scripts/provision_registry.py:140-172 | what the equity rewrite reports by itself: whether the pilot override was there and is gone, the states around it and the threshold |
| `RegistryOutcomes.OtherOutcome` | backend/scripts/provision_registry.py:193-222 | every other dataset gets its merge |
| `RegistryRun.MergeAll` | backend/scripts/provision_registry.py:193-222 | the loop notes exactly the datasets whose merge differs from the stored value |
| `RegistryRun.Reconcile` | backend/scripts/provision_registry.py:175-247 | succeeds exactly if the rows are the supported ones and all reconcile; the report names exactly the datasets whose final configuration differs from the input, and the previous and resulting override with the global threshold |
| `RegistryRun.RegistryTable.Provision` | backend/scripts/provision_registry.py:314-364 | one transaction: changed configurations are written, other rows and failed runs leave the table alone |
| `RegistryOutcomes.StoredAfterRun` | backend/scripts/provision_registry.py:314-364 | after a run a supported row that differed holds its new configuration, and every other row is untouched |
| `RegistryOutcomes.ReportInPlainTerms` | backend/scripts/provision_registry.py:236-247 | the report lists the changed datasets once each, and gives the override before and after and the threshold in force |
| `RegistryRun.SecondRunChangesNothing` | backend/scripts/provision_registry.py:314-364 | a second transaction computes the same configurations, writes nothing and reports nothing |
| `RateLimiter.Limiter.Enforce` | backend/app/api/deps.py:133-146 | accepted exactly if the window ending now holds fewer than limit accepted calls of the full log; a rejected call stores nothing |
| `RateLimiter.Limiter.EnforceSource` | backend/app/api/deps.py:75-100 | the same with the configured limit and window, both at least one; other buckets are untouched |
| `RateLimiter.PruneOfKept` | backend/app/api/deps.py:88-90 | pruning the kept bucket gives the same entries as pruning the full log |
| `RateLimiter.PruningRefinesFullLog` | backend/app/api/deps.py:82-100 | over any run the pruned bucket decides as the full log does |
| `RateLimiter.WindowNeverOverfilled` | backend/app/api/deps.py:82-100 | no stretch shorter than the window holds more than limit acceptances |
| `RateLimiterTheory.AcceptedIffFewRecent` | backend/app/api/deps.py:75-100 | in any run a call is accepted if and only if fewer than limit of the calls accepted before it are less than a window old |
| `RateLimiterTheory.ConfiguredIs` | backend/app/api/deps.py:78-84 | a positive setting is taken as it is, a negative one counts as one, zero or nothing means the default |
| `PlanGuard.Counts.RecordActions` | infra/tofu/plan_json_guard.py:73-80 | a list of strings is counted with saturation, anything else is refused |
| `PlanGuard.WalkFutureActions` | infra/tofu/plan_json_guard.py:83-96 | the recursive walk inspects exactly the action lists of the tree, in document order |
| `PlanGuard.ActionListsAreTheReachableOnes` | infra/tofu/plan_json_guard.py:83-96 | these are exactly the values that some path of positions leads to under the key actions |
| `PlanGuard.InspectedIs` | infra/tofu/plan_json_guard.py:73-80 | the saturating counters equal the minimum of the true totals and the cap |
| `PlanGuard.ZeroTestIsExact` | infra/tofu/plan_json_guard.py:279-279 | the counter is zero if and only if no inspected list contains a delete |
| `PlanGuard.InspectChanges` | infra/tofu/plan_json_guard.py:125-149 | the scan accepts exactly if all lists are well-formed and, in retirement mode, every delete is a pure, unrepeated retirement of an allowed address |
| `PlanGuard.SeenDecides` | infra/tofu/plan_json_guard.py:151-156 | the seen addresses are none or all allowed ones if and only if the exception is met |
| `PlanGuard.ValidateShape` | infra/tofu/plan_json_guard.py:99-218 | the plan is accepted exactly if its shape, action lists and retirements are in order |
| `PlanGuard.Accepts` | infra/tofu/plan_json_guard.py:270-290 | default mode accepts exactly the well-shaped plans in which no inspected list deletes; retirement mode those with no deletes or one pure delete for each allowed address and none elsewhere |
| `PlanGuardTheory.DefaultModeIs` | infra/tofu/plan_json_guard.py:99-290 | without an exception a plan passes if and only if its frame is complete and no action list, in a known section or at the end of any path of another one, is malformed or deletes |
| `PlanGuardTheory.RetirementModeIs` | infra/tofu/plan_json_guard.py:99-290 | with the exception a plan passes if and only if nothing outside the resource changes deletes and those delete nothing or exactly the allowed addresses, once each and purely |
| `PlanGuardTheory.CountersAre` | infra/tofu/plan_json_guard.py:65-80 | the counters are the number of lists and of deletes, each cut off at a million |
| `PlanGuard.ParseArgs` | infra/tofu/plan_json_guard.py:221-237 | only the plan alone, or both retirements and the plan, are understood |
| `PlanGuardTheory.CommandLinesAre` | infra/tofu/plan_json_guard.py:19-24 | the retirement command names exactly the two declared addresses, each behind its own flag |
| `RecoveryPoller.WaitUntilRecovered` | infra/deploy/check_fetcher_runtime_recovery.py:102-141 | the wait ends after at most timeout / poll + 2 polls with the verdict of the first deciding poll |
| `RecoveryPoller.StableIff` | infra/deploy/check_fetcher_runtime_recovery.py:129-137 | the remembered baseline and start time decide whether some streak spans the window |
| `RecoveryPoller.VerdictIs` | infra/deploy/check_fetcher_runtime_recovery.py:118-141 | the verdict falls at the first poll that finds nothing installed, fills a healthy window or passes the deadline; it is a timeout if only the clock ended the wait, else that poll's snapshot |
| `RecoveryPoller.RecoveryCertifiesAHealthyWindow` | infra/deploy/check_fetcher_runtime_recovery.py:129-134 | a returned non-empty snapshot was the value of every poll of a contiguous all-healthy streak that spans the window |
| `RecoveryPoller.EarlyStreakSucceeds` | infra/deploy/check_fetcher_runtime_recovery.py:129-141 | a streak that starts a window before the deadline and holds never ends in a timeout |
| `RecoveryPoller.TimeoutMeansNoStableWindow` | infra/deploy/check_fetcher_runtime_recovery.py:138-140 | a timeout means that the deadline passed and no streak of the whole wait was long enough |
| `RecoveryPoller.AbsenceEndsTheWait` | infra/deploy/check_fetcher_runtime_recovery.py:127-128 | the empty snapshot ends the wait at once |
| `ArchiveManifest.NextMonth` | backend/app/schemas/archive.py:20-21 | the following first of a month, none after the calendar's last month |
| `ArchiveManifest.ExpectedMonths` | backend/app/schemas/archive.py:103-107 | the loop ends after listing each month of the range exactly once across years; it fails only for a range that ends in the calendar's last month, December 9999, because it steps past it |
| `ArchiveManifest.AscendingIff` | backend/app/schemas/archive.py:115-118 | equal to its sorted form and as long as its set means strictly ascending |
| `ArchiveManifest.ValidateCoverage` | backend/app/schemas/archive.py:103-141 | the date and instrument checks decide the declared coverage conditions |
| `ArchiveManifest.GroupBySnapshot` | backend/app/schemas/archive.py:144-146 | the dictionary holds, for each occurring snapshot, its chunks in order |
| `ArchiveManifest.ValidateGroups` | backend/app/schemas/archive.py:144-156 | sorted keys and sorted sequences are ranges exactly if every snapshot passes |
| `ArchiveManifestTheory.GroupsOkIffGrid` | backend/app/schemas/archive.py:144-156 | the grouping checks accept exactly the chunk lists that fill every cell of the two-level grid once and lie inside it |
| `ArchiveManifestTheory.ObjectEvidenceIff` | backend/app/schemas/archive.py:159-165 | the dictionary check means distinct object keys and every chunk's object listed as it is |
| `ArchiveManifestTheory.ValidateRelease` | backend/app/schemas/archive.py:101-166 | the validator accepts exactly the manifests that satisfy every declared condition |
| `ArchiveOutcomes.AcceptedIs` | backend/app/schemas/archive.py:101-166 | the accepted manifests in plain terms: field ranges, months without a gap, dates in order that fit the months, checksums, numbered chunks, added-up rows, listed objects |
| `ArchiveManifestTheory.SnapshotCountsSumToChunkCount` | backend/app/schemas/archive.py:142-156 | the per-snapshot counts add up to the declared number of chunks |
| `ArchiveManifestTheory.RowCountBounds` | backend/app/schemas/archive.py:157-158 | rows are conserved and lie between one and 5,000 a chunk |
| `ArchiveManifestTheory.ChunksFillTheGrid` | backend/app/schemas/archive.py:145-156 | every chunk has its cell, and no two chunks share one |
| `ArchiveManifestTheory.EveryCellIsFilled` | backend/app/schemas/archive.py:145-156 | every cell of the grid has a chunk |
| `ArchiveManifestTheory.TradingMonthsAreTheRange` | backend/app/schemas/archive.py:108-129 | a month has a trading date if and only if it lies in the declared range |
| `ArchiveManifestTheory.InstrumentOrderIsIrrelevant` | backend/app/schemas/archive.py:135-141 | listing the instruments in another order keeps the manifest accepted |

## Left out

- SQL text, ORM mapping, migrations, row locks and isolation: a transaction is all or nothing on a map or a row list.
- The truncate mode of the seed load, parsing of CSV cells, and the text of the generated load script.
- SortTablesByFk: the iteration order of Python sets is left open, as the language leaves it.
- UpsertTable: the row count that the database driver reports is modelled only as rows written or inserted.
- ReconcileMachineCredential: rows are values in a list field; sharing of row objects between sessions is not modelled.
- ReconcileInSession: audit events, printed fingerprints and the choice of runtime profile.
- The unused calendar credential policy of the fetcher script.
- SsmProbe: remote command polling, deadlines, file ownership checks, and the cleanup command.
- ExpectedTarget: time zone rules and the parsing of clock texts; closing instants come with the calendar.
- ParseContracts: JSON text and the tests on key sets and value types, entries arrive with typed fields; Python's limit
  on the digits of an integer.
- BuildBundle: the manifest's own field formats (commit, images, registry, tags) are one predicate.
- ValidateBundle: the optional comparison with expected release inputs.
- Read: descriptor flags, links, inode and size checks; a physical read yields bytes or fails.
- WriteFile: modes of parent directories, syncing, and what is left on disk after a failure.
- MergeOperatorConfig: object key order, which Python keeps and its equality ignores.
- Reconcile: which of several errors is raised is not stated, only that the run fails.
- Enforce: locks, calls on one bucket come one after another; rounding of floating-point times, which are reals here.
- ValidateShape: the printed reason of a rejection (delete or malformed) and the summary line.
- The guard's reading of its file: size limit, UTF-8, duplicate keys and non-finite numbers.
- WaitUntilRecovered: the parsing of container listings, an observation is a snapshot or a failed read; rounding of
  floating-point seconds, which are reals here.
- ValidateRelease: text patterns of identifiers, digests and object keys, the number of days of a month, the upper bound
  on the number of instruments, and the time zone of the finalization time.
- The dashboard, nginx renderers, name backfills, queue and calendar services, and static dictionaries.
