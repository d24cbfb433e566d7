# Verified model of the collector outbox, the migration machinery and the analysis scripts

Dafny 4.11. `dafny verify dfyconfig.toml` checks every file.

The project models the parts of the repository whose correctness is not visible from any one
function, and proves what they are for.

- **Residential Outbox.** A durable queue changed only inside transactions, guarded by an expiring
  process lease. `OutboxStore` is the transition relation of one transaction and the theorems over
  every run: conservation, unique clients, storage bound, replay. `ResidentialOutbox` is the class
  that changes rows in place and rolls back; each method is proved to be one such transition.
  `ProcessLease` is the lease over every interleaving of invocations. `Timestamps` relates the text
  order SQL uses to time order. `CanonicalJson` and `Envelopes` are the wire contract and the
  validator that must accept it, and `SafeMetadata` screens the routing metadata. `OutboxQueries` is
  what the reads select and in which order.
- **Migrations.** `SchemaMigrations` is `run_migrations` with its legacy repair, over any number of
  migrators. `TableRebuild` is the interrupted SQLite rebuild. `PointerHistory` and
  `LineageBackfill` are the two data corrections that claim to be rerun-safe.
- **Change impact.** `ChangeImpact` is the reverse closure and the fixture worklist behind test
  selection, each proved equal to reachability.
- **Backtest.** `Backtest` is the day-by-day sampling loop and its two-run non-interference;
  `RankStatistics` is tie-averaged ranks and Spearman's rho.
- **Accounting.** `SeasonVerify` compares a candidate with reference figures; `InjuryBackfill`
  counts every game once.

Conventions. Where the source raises, a function returns `None` or an error value and a method
leaves the state as it was. Clock readings, measured storage footprints, searches, stores, SHA-256,
gzip and the scoring services are parameters. Hashing is assumed free of collisions only on the
materials a statement names. `Options`, `Scanning` and `Sorting` hold
what the other modules share: absent values, single characters of decimal text, and sorting with
the text order.

Where the code and a wished-for property part company, the model follows the code and the exact
condition is proved:

- Text order equals time order except on two stamps of one second of which exactly one has zero
  microseconds; there it is inverted (`TextOrderExact`). So pruning can delete work newer than the
  governed cutoff (`PruneTakesNewerWork`) and an unexpired lease can fail to renew
  (`UnexpiredRenewalRefused`). Pruning, the retention queries and the newest-first listing each go
  by true time if and only if no such pair is compared (`PruneExact`, `RetentionExact`,
  `PendingNewestFirst`).
- One lineage pass is a fixed point except for an id list that is one id repeated, with a checksum
  and no evidence, and for a bare empty JSON string beside evidence (`PassesNeeded`). The second
  family has no duplicated id.
- The rebuild's copy skips a leftover row that clashes with the main table on any unique key, and
  the drop then deletes it. `player_diet_facts` has two, its id and its identity, so a fact is lost
  when its id was reused (`FactLost`), and otherwise only when an old-shaped main table refuses it
  (`FactsExact`). No state that interruptions
  reach from a single table has such a row (`OneTableLosesNothing`).
- An old-shaped Diet table beside a leftover keeps the old shape (`DietShape`). A second call would
  rebuild it, but `run_migrations` records version 70 after the first and does not make it
  (`RerunAppliesNothing`). No interruption of the rebuild produces that pair (`NoRowLost`).
- A constructed envelope can be refused for a key in its scope, because the outbox screens routing
  metadata that holds the scope (`TokenIsRefused`, `ObservationScreened`).
- The backtest's team universe is read from all games of the season, later ones included, so a
  later game can change an earlier sample (`LaterGameMovesSample`). It cannot exactly when both
  seasons, or neither, have a game with a league team (`LeakExact`), and never once a game through
  the day has one (`SettledByEarlierGame`).

## Model

| member | source | states |
|---|---|---|
| `Timestamps.SecondsOrderIsFieldOrder` | app/collector/outbox.py:56-67 | comparing whole seconds as numbers is comparing year, month, day, hour, minute, second from the left, and equal seconds mean equal fields |
| `Timestamps.GregorianYears` | app/collector/outbox.py:56-67 | the days before a year are those of the Gregorian leap rule |
| `Timestamps.FromMicrosInverts` | app/collector/outbox.py:56-67 | turning an instant into civil fields inverts turning fields into an instant, over years 1 to 9999 with leap years |
| `Timestamps.TextOrderExact` | app/collector/outbox.py:66-67 | the stored text of two UTC times orders as the times do if and only if they are not two stamps of one second of which exactly one has zero microseconds; on those it is inverted |
| `Timestamps.IsoInjective` | app/collector/outbox.py:66-67 | two times with one stored text are equal |
| `Timestamps.ParseIso` | app/collector/outbox.py:56-67 | parsing a stored text gives back the time it was written from |
| `Timestamps.ParseSpelling` | app/collector/outbox.py:56-63 | every spelling of a local time with Z or an offset parses to the UTC time it names, earlier by the offset after a plus sign and later after a minus sign |
| `Timestamps.SpellingsOfOneInstant` | app/collector/contracts.py:129-141 | two spellings are stored as one text if and only if they name one instant |
| `ProcessLease.AcquireExact` | app/collector/outbox.py:530-547 | an acquisition is granted if and only if there is an owner, the time to live is at least 1, the expiry is representable, and there is no row or its parsed expiry is at or before the reading; it is granted for exactly min(ttl, 86400) seconds and leaves that owner's row, and otherwise the row stays |
| `ProcessLease.RenewExact` | app/collector/outbox.py:549-557 | a renewal is granted if and only if the row is the owner's, its expiry text is above the reading's and the new expiry is representable, for exactly that long |
| `ProcessLease.ReleaseExact` | app/collector/outbox.py:559-564 | a release is done exactly for the row's owner, and then anybody can acquire at once; otherwise the row stays |
| `ProcessLease.LeaseAvailable` | app/collector/outbox.py:530-547 | in every reachable state whose clock has reached the row's expiry, or that has no row, an acquisition with that reading is granted, so no ended invocation blocks the outbox |
| `ProcessLease.LiveLeaseRefusesOthers` | app/collector/outbox.py:530-547 | while a grant is live, no acquisition by anybody with a clock reading taken before its transaction succeeds or changes the row |
| `ProcessLease.StepKeepsSafe` | app/collector/outbox.py:530-564 | every acquire, renew, release, clock advance and rolled-back transaction keeps: a live grant's owner holds the row with that very expiry |
| `ProcessLease.LeaseSafety` | app/collector/outbox.py:530-572 | in every state of every interleaving, an invocation whose last granted expiry is in the future owns the row, and no two grants are live |
| `ProcessLease.DisplacedStaysDisplaced` | app/collector/outbox.py:549-564 | an invocation that lost the row and does not acquire again never regains it, and its renewals and releases change nothing of its successor's |
| `ProcessLease.RenewalDecision` | app/collector/outbox.py:549-557 | the owner's renewal is granted exactly when the lease is unexpired, except on a mixed-fraction pair, where exactly when it is expired |
| `ProcessLease.UnexpiredRenewalRefused` | app/collector/outbox.py:554 | a renewal half a second before expiry that is refused |
| `CanonicalJson.ReadPut` | app/collector/contracts.py:72-90 | reading a printed value, in front of any text that cannot extend it, gives the value and that text, escapes and surrogate pairs included |
| `CanonicalJson.NormEntriesGet` | app/collector/contracts.py:72-90 | sorting an object's members keeps its key set and each member's value |
| `CanonicalJson.NormIdempotent` | app/collector/contracts.py:72-90 | key sorting at every level is idempotent and keeps keys distinct |
| `CanonicalJson.PrintParsePrint` | app/collector/contracts.py:72-90 | parsing canonical text gives the key-sorted value, and printing that gives the same text again |
| `CanonicalJson.PrintedInKeyOrder` | app/collector/contracts.py:72-90 | the text lists the members of every object, at every depth, in ascending code-point order of their keys |
| `CanonicalJson.PlainPrintsItself` | app/collector/contracts.py:72-90 | a text without quotes, backslashes and control characters is printed as it is, outside ASCII too |
| `CanonicalJson.EscapesPrinted` | app/collector/contracts.py:72-90 | every other character is printed as its short escape, and a control character without one as `\u00` and two hexadecimal digits |
| `CanonicalJson.ScalarsPrinted` | app/collector/contracts.py:72-90 | numbers are printed in decimal without leading zeros, null and the truth values by name |
| `CanonicalJson.PrintedCompactly` | app/collector/contracts.py:72-90 | the text of a list or an object is the texts of its parts with single commas and colons between them and no blanks |
| `CanonicalJson.PrintInjective` | app/collector/contracts.py:72-90 | one canonical text, one value up to member order |
| `Envelopes.ValidatePayload` | app/collector/contracts.py:93-126 | the recursive walk with its shared counter accepts a value if and only if its depth, its number of values, its numbers and its keys are all admissible, and then has counted every value |
| `Envelopes.ValidateItems` | app/collector/contracts.py:93-126 | the walk over a list accepts exactly when every element does within what is left of the limits |
| `Envelopes.ValidateEntries` | app/collector/contracts.py:93-126 | the walk over an object, its keys included |
| `Envelopes.Utf8Exact` | app/collector/contracts.py:304-312 | the size compared with the limits is the number of UTF-8 bytes, and those bytes determine the text |
| `Envelopes.MaterialExact` | app/collector/contracts.py:144-169 | the text an id is hashed from is equal for two observations exactly when all six ingredients agree, the scope up to member order |
| `Envelopes.StableIdExact` | app/collector/contracts.py:144-169 | ids are equal if and only if collector, instruction, type, scope, cutoff instant and checksum agree, given that the two truncated hashes do not collide |
| `Envelopes.ChecksumExact` | app/collector/contracts.py:87-90 | checksums are equal if and only if the payloads are, up to member order, given that their texts do not collide |
| `Envelopes.StableIdForm` | app/collector/contracts.py:144-169 | an id is `rc-` and the first 48 digits of the hash |
| `Envelopes.ObservedIdExact` | app/collector/contracts.py:254-267 | two built envelopes have one id if and only if collector, instruction, type, scope, cutoff instant and payload agree, given that the hashes do not collide on them |
| `Envelopes.FromObservation` | app/collector/contracts.py:243-282 | an envelope that is built passes every construction check, binds the checksum of the payload with its provenance, and carries the id of the cutoff's instant |
| `Envelopes.FromObservationExact` | app/collector/contracts.py:243-282 | an envelope is built if and only if the arguments are admissible, its own id and checksum always being so; each field is the one given, and the payload is the observed one with the provenance unless it brought its own |
| `Envelopes.JudgeExact` | app/collector/outbox.py:364-432 | of all byte strings the wire validator accepts exactly those that inflate, within the limit, to an object with the required members and no others than the allowed, an object payload, a non-blank client id, the manifest its kind demands, and the expected checksum, which is the payload's; it reports a mismatch exactly for a document of that shape with another checksum |
| `Envelopes.ObservationReadsBack` | app/collector/contracts.py:287-312 | whoever inflates and parses an observation's bytes finds every field of the envelope under its own name and nothing else |
| `Envelopes.CatalogReadsBack` | app/collector/contracts.py:349-363 | the same for a catalog, with its version and its expiry |
| `Envelopes.ObservationAccepted` | app/collector/outbox.py:364-432 | a constructed observation envelope that fits the size limits passes the outbox's wire validator if and only if it names a manifest |
| `Envelopes.CatalogAccepted` | app/collector/contracts.py:349-363 | every constructed catalog envelope that fits the size limits passes the outbox's wire validator |
| `Envelopes.ReplayIdentity` | app/collector/contracts.py:254-267 | re-collection at any retrieval time, under any manifest and any spelling of the cutoff, gives the same id and checksum |
| `SafeMetadata.WalkExact` | app/collector/outbox.py:70-105 | the walk that stops at its first refusal passes a value if and only if every key at every depth has at most 256 characters and, casefolded, contains no forbidden part |
| `SafeMetadata.KeyRefused` | app/collector/outbox.py:73-99 | a key with any of the thirteen words anywhere in it, in any mixture of case, is refused, and so is a key of more than 256 characters |
| `SafeMetadata.MetadataKeysSafe` | app/collector/contracts.py:314-330 | the routing metadata's own keys are all safe |
| `SafeMetadata.TokenIsRefused` | app/collector/outbox.py:88-97 | a scope with the key `token` is refused as a credential |
| `OutboxStore.ScopeDecides` | app/collector/contracts.py:314-330 | of an envelope's routing metadata only the scope's keys can be refused |
| `OutboxStore.ObservationScreened` | app/collector/outbox.py:304-316 | what `enqueue_observation` sends passes every check before the transaction if and only if it names a manifest, every key in its scope is safe, and it fits the store |
| `OutboxStore.CatalogScreened` | app/collector/outbox.py:304-316 | what `enqueue_catalog` sends passes every check before the transaction if and only if every key in its scope is safe and it fits the store |
| `OutboxStore.ScreenExact` | app/collector/outbox.py:304-316 | the checks before the transaction pass exactly the two kinds, a payload within its limit that the validator accepts, and metadata with safe keys within its limit |
| `OutboxStore.ObservationStored` | app/collector/outbox.py:434-442 | the row that `enqueue_observation` inserts reads back as the envelope, field by field, with its routing metadata |
| `OutboxStore.CatalogStored` | app/collector/outbox.py:444-453 | the row that `enqueue_catalog` inserts reads back as the catalog, with its request, version and expiry |
| `OutboxStore.StepKeepsConserved` | app/collector/outbox.py:318-362 | every transaction, committed or rolled back, keeps: each row ever inserted is in exactly one of pending, acknowledged with its own checksum, pruned below a governed cutoff; no two pending rows share kind and client id; history is only extended |
| `OutboxStore.NoLoss` | app/collector/outbox.py:498-528 | the same between any two states of any run, so no row is lost and no item id is reused |
| `OutboxStore.EnqueueExact` | app/collector/outbox.py:293-362 | an enqueue inserts if and only if the item may be sent, its id is not pending, and footprint, pending bytes, item, metadata, three pages and the reserve fit the limit; the new row then holds the item column by column under the next id; it answers with a row if and only if that item is pending, and reports a conflict if and only if the id is pending with another checksum |
| `OutboxStore.LeavesExact` | app/collector/outbox.py:498-528 | a pending row leaves if and only if a committed transaction acknowledges it with its own checksum or prunes below a text above its cutoff |
| `OutboxStore.PendingStaySendable` | app/collector/outbox.py:364-432 | in every reachable state each pending row holds a whole document of its kind whose payload has the row's checksum, and metadata with safe keys, so the validator would accept it again |
| `OutboxStore.PendingWereEnqueued` | app/collector/outbox.py:339-354 | in every reachable state each pending row was there at the start or holds, column by column, what one enqueue of the run was given |
| `OutboxStore.AttemptsCounted` | app/collector/outbox.py:490-496 | while a row is pending its attempts grow by exactly the committed attempts on it, and the last one leaves its reason |
| `OutboxStore.StepKeepsStorageBound` | app/collector/outbox.py:331-338 | no transaction raises the pending bytes above both what they were and the admission limit |
| `OutboxStore.StorageBound` | app/collector/outbox.py:236-240 | in every reachable state the pending bytes are within max(start, max_bytes - headroom - 3 pages), and every committed transaction left the footprint within max_bytes of the baseline |
| `OutboxStore.TextBeforeExact` | app/collector/outbox.py:517-527 | one text comparison of a stored time with a threshold selects by true time except on a mixed-fraction pair, where it selects the opposite |
| `OutboxStore.PruneTakesNewerWork` | app/collector/outbox.py:522-528 | work half a second newer than the governed cutoff that pruning deletes |
| `OutboxQueries.NewRowIsStamped` | app/collector/outbox.py:339-354 | a row stores its cutoff and creation as texts that parse back to them |
| `OutboxQueries.RunKeepsStamped` | app/collector/outbox.py:318-362 | over any run every pending row carries two times in the printed form |
| `OutboxQueries.PruneExact` | app/collector/outbox.py:522-528 | pruning deletes exactly the rows older than the governed cutoff if and only if no pending cutoff forms a mixed pair with it |
| `OutboxQueries.PruneLeaves` | app/collector/outbox.py:522-528 | a committed prune without mixed pairs leaves exactly the rows at or after the governed cutoff and counts the others |
| `OutboxQueries.RetentionExact` | app/collector/outbox.py:471-520 | `aged_pending` and `enforce_retention` see exactly the rows created before now minus the retention if and only if no creation time forms a mixed pair with that threshold, and then enforcement raises exactly when such a row exists |
| `OutboxQueries.PendingOrderFacts` | app/collector/outbox.py:462-469 | the listing holds every pending row once, by cutoff text downwards, then creation text, then id |
| `OutboxQueries.PendingNewestFirst` | app/collector/outbox.py:462-469 | `pending` lists newest cutoff first by true time if and only if no two pending cutoffs form a mixed pair |
| `OutboxQueries.PageIsNewest` | app/collector/outbox.py:462-469 | without mixed pairs no row that a limited page leaves out is newer than one it returns |
| `OutboxQueries.PageExact` | app/collector/outbox.py:462-469 | a page is the first rows of the listing, as many as asked for but at least one and at most a thousand, or all when there are fewer |
| `OutboxStore.ReplayFindsRow` | app/collector/outbox.py:319-330 | enqueueing an item that is pending changes nothing and answers with that row, or fails for the commit check alone |
| `OutboxStore.RecollectionKeepsOneRow` | app/collector/outbox.py:319-330 | over any run, collecting one observation again, at any retrieval time and with any spelling of its cutoff, while its row is pending adds nothing and answers with that row |
| `OutboxStore.ObservationIsDerived` | app/collector/contracts.py:254-267 | an envelope's id is derived from a material that binds its checksum |
| `OutboxStore.ConflictUnreachable` | app/collector/outbox.py:325-330 | in a run whose ids are all derived from observations, with no truncated-hash collision among their materials, "bound to a different checksum" is never raised |
| `ResidentialOutbox.OutboxRepository.constructor` | app/collector/outbox.py:172-186 | an empty store satisfies the conservation invariant |
| `ResidentialOutbox.OutboxRepository.TotalPending` | app/collector/outbox.py:242-246 | the loop sums the payload bytes of all the pending rows, each once and none outside its range |
| `ResidentialOutbox.OutboxRepository.Enqueue` | app/collector/outbox.py:293-362 | one enqueue transition with the refusals in the code's order, the insert undone when a later footprint check fails; it inserts exactly when the item may be sent, is new and there is room, and the new row then holds the item; nothing else changes and the invariant is kept |
| `ResidentialOutbox.OutboxRepository.MarkAttempt` | app/collector/outbox.py:490-496 | one attempt transition: only the attempts and last error of that row change |
| `ResidentialOutbox.OutboxRepository.Acknowledge` | app/collector/outbox.py:498-510 | one acknowledge transition: the row goes only on a receipt with its own checksum |
| `ResidentialOutbox.OutboxRepository.PruneObsolete` | app/collector/outbox.py:522-528 | one prune transition: exactly the rows whose cutoff text is below the threshold's go, and they are counted |
| `ResidentialOutbox.OutboxRepository.AcquireLease` | app/collector/outbox.py:530-547 | in place, the acquisition the lease theorems are about: granted exactly when the footprint fits, owner and times allow it and the row is absent or run out, for exactly that long |
| `ResidentialOutbox.OutboxRepository.RenewLease` | app/collector/outbox.py:549-557 | in place, the renewal the lease theorems are about: granted exactly to the row's owner before the expiry text, for exactly that long |
| `ResidentialOutbox.OutboxRepository.ReleaseLease` | app/collector/outbox.py:559-564 | in place, the release the lease theorems are about: the row goes exactly when it is the owner's and the footprint fits |
| `SchemaMigrations.RepairExact` | app/migrations.py:3575-3615 | the repair is idempotent, touches only the misnumbered row and its version-42 target, which then has the canonical name and that row's time, and fails exactly when 42 is taken by another name |
| `SchemaMigrations.OrderCheckExact` | app/migrations.py:3706-3710 | comparing the versions with their sorted set accepts exactly the strictly increasing lists |
| `SchemaMigrations.MissingIncreases` | app/migrations.py:3642-3654 | what a run has to apply is in increasing version order |
| `SchemaMigrations.UpgradesChain` | app/migrations.py:3642-3654 | the upgrades of a list succeed exactly when each in turn succeeds on what the one before it left |
| `SchemaMigrations.Database.ApplyMissing` | app/migrations.py:3639-3654 | the loop upgrades and records exactly the missing versions, once each and in order, though it grows the set it tests against |
| `SchemaMigrations.Database.RunMigrations` | app/migrations.py:3618-3670 | a run either leaves everything as it was or commits the repair, the missing upgrades and, from version 36 on, the compatibility step |
| `SchemaMigrations.CommitKeepsLoggedOnce` | app/migrations.py:3566-3572 | a committed run keeps: every committed upgrade is recorded under its own name, once |
| `SchemaMigrations.AppliedAtMostOnce` | app/migrations.py:3618-3670 | over any number of serialized migrators, some failing, each version's upgrade is committed at most once |
| `SchemaMigrations.RerunAppliesNothing` | app/startup_schema_guard.py:65-74 | after a success a rerun repairs nothing and applies nothing, and the boot guard's version test passes |
| `TableRebuild.StepsKeepContents` | app/migrations.py:2766-2795 | no rename, create, copy or drop in a plan changes the rows the rebuild will end with, or breaks a unique key, and none removes a row from the disk when all rows are to be kept |
| `TableRebuild.InsertOrIgnore` | app/migrations.py:2793-2794 | copying row by row, in any scan order, takes exactly the rows that the definition admits and none of whose keys is taken |
| `TableRebuild.DietPlanRuns` | app/migrations.py:2766-2795 | from every state each step of the rebuild is enabled when reached, the drop only once nothing of the leftover can still be taken; it ends with no leftover, a table if there was one, and the new shape except from a stale pair |
| `TableRebuild.QualifierPlanRuns` | app/migrations.py:2446-2480 | from every state the qualifier rebuild runs through and ends with one new-shaped table |
| `TableRebuild.NoRowLost` | app/migrations.py:2766-2795 | after any number of starts, each stopped anywhere, the rows a rebuild ends with are the same, and where it keeps every row all of them are still on the disk |
| `TableRebuild.DietRecovers` | app/migrations.py:2732-2795 | after any interruptions one completed start leaves a single new-shaped table with the main rows and every leftover row none of whose keys they use; a further start does nothing |
| `TableRebuild.DietShape` | app/migrations.py:2766-2795 | one completed start gives the new shape if and only if it did not find an old-shaped table beside a leftover; a second call would give it with the same rows |
| `TableRebuild.QualifiersRecover` | app/migrations.py:2446-2520 | the same recovery for the qualifier rebuild, from every state |
| `TableRebuild.SurvivalExact` | app/migrations.py:2793-2795 | a leftover row survives a completed rebuild if and only if it is in the main table already, or there is no main table, or it is admitted and no key of it is taken |
| `TableRebuild.OneTableLosesNothing` | app/migrations.py:2766-2795 | from a single table, however often and wherever the starts were interrupted, no row is missing and a completed start keeps them all |
| `TableRebuild.FactsExact` | app/models/player_diet.py:22-67 | a completed rebuild of `player_diet_facts`, whose id and identity are both unique, loses no fact if and only if no leftover row whose fact the main table lacks has an id the main table uses or is refused by its definition |
| `TableRebuild.FactLost` | app/migrations.py:2793-2795 | a table interrupted after the create, and one fact then written under the first id: the completed rebuild loses the old fact of that id |
| `TableRebuild.Database.RebuildDietTable` | app/migrations.py:2766-2795 | one start in place, its copy row by row, stopped after any number of steps, is that prefix of the plan |
| `PointerHistory.Reclassify` | app/migrations.py:3060-3124 | the in-place loop, deciding from a stale snapshot with a guarded update: a row loses its revocation exactly when the next row is a rollback version that revoked it at its own fence and time, to another season that an earlier row of that season and lineage proves, while the row is current; none is created; a row is retired by the lowest-fence rollback whose latest such earlier row it is, and an existing retirement is kept |
| `PointerHistory.RestoresExact` | app/migrations.py:3079-3100 | the search finds a source exactly when the columns and the evidence prove a rollback with an earlier row of the same season, checksum and cutoff, and then the latest such row |
| `PointerHistory.PassIdempotent` | app/migrations.py:3060-3124 | a second execution changes no row |
| `PointerHistory.RevocationExact` | app/migrations.py:3060-3124 | the revocation half, for the whole-history correction that the loop computes |
| `PointerHistory.RetirementExact` | app/migrations.py:3060-3124 | the retirement half, for the whole-history correction that the loop computes |
| `LineageBackfill.Backfill` | app/migrations.py:396-472 | the pass rewrites every job from its own columns alone, and leaves each in the written form |
| `LineageBackfill.GatheredExact` | app/migrations.py:396-441 | a pass gathers exactly the listed ids, or else the singular trigger, and exactly the stored evidence, or else the singular checksum under the one id there is |
| `LineageBackfill.WrittenForm` | app/migrations.py:396-472 | the written ids are exactly the gathered ids and the evidence keys, sorted and distinct, and alone also the trigger; the evidence is the gathered evidence sorted by game; the checksum is a single game's or the digest of the evidence as written; the game-set checksum is the digest of the ids as written; the generation is at least 1; a job with nothing to gather keeps its columns |
| `LineageBackfill.PlainFixed` | app/migrations.py:396-472 | with no empty id gathered and no checksum left unbound, one pass is a fixed point |
| `LineageBackfill.BareEmptyWithEvidence` | app/migrations.py:396-472 | a bare empty string beside evidence is rewritten by the second pass |
| `LineageBackfill.PassesNeeded` | app/migrations.py:396-472 | one pass is a fixed point if and only if the stored columns are in neither of two checkable families; two passes always are |
| `ChangeImpact.Grow` | scripts/changed_scope.py:189-196 | the in-place growth loop ends, for every iteration order, with exactly the modules that have a path to a changed one |
| `ChangeImpact.ReachesUnion` | scripts/changed_scope.py:189-196 | reaching a union of changes is reaching one of them |
| `ChangeImpact.Visit` | scripts/changed_scope.py:167-171 | one name contributes the imports and requests of its fixture in every visible conftest |
| `ChangeImpact.FixtureRefs` | scripts/changed_scope.py:158-172 | the worklist, duplicates included, ends with exactly the imports of all fixtures reachable from the requested names |
| `ChangeImpact.AffectedTests` | scripts/changed_scope.py:175-217 | the selected files, in order, are exactly those whose module, own or fixture reference reaches a change, whose always-run imports name one, or whose text names a changed data file |
| `ChangeImpact.SelectionAdditive` | scripts/changed_scope.py:175-217 | selecting for the union of two diffs selects the union of their selections |
| `ChangeImpact.MakePlan` | scripts/changed_scope.py:220-254 | the mode is full if and only if some changed path forces the suite, though the loop stops at the first; otherwise the plan is the selection |
| `ChangeImpact.PlanIgnoresOrder` | scripts/changed_scope.py:220-254 | the plan's mode, tests and migration flag do not depend on the order or repetition of the changed paths |
| `Backtest.CountGame` | scripts/reb_score_backtest.py:388-393 | a game adds each player's appearances with minutes, and their rebounds, to the running counts |
| `Backtest.CountDay` | scripts/reb_score_backtest.py:388-393 | the counts over the prior games become the counts over the prior games and the day's |
| `Backtest.ScoreDay` | scripts/reb_score_backtest.py:341-387 | eligibility and targets read off the running counts, with the windows taken once, give the samples that recounting the prior games gives |
| `Backtest.BuildSamples` | scripts/reb_score_backtest.py:313-394 | accumulating games, appearances and rebounds day by day gives, for each day, the samples that the games dated before it and its own games determine; there is exactly one for each player-game of the season that is due, in order of date, game and position |
| `Backtest.SampleExact` | scripts/reb_score_backtest.py:341-387 | a player-game has a sample exactly when the player has appeared often enough before, plays long enough and some window scores him at the opponent listed first for his team; its target is his rebounds minus those of his earlier appearances with minutes over their number, and its scores, share and fallback are the services' |
| `Backtest.SamplesAccounted` | scripts/reb_score_backtest.py:313-394 | the samples correspond one to one, in order, to the season's due player-games, each explained by its game and fact |
| `Backtest.PriorExact` | scripts/reb_score_backtest.py:247-249 | the games before a day are exactly the season's regular games dated before it, and the teams are the league's exactly when some game of the season lists one |
| `Backtest.WindowsExact` | scripts/reb_score_backtest.py:252-292 | the season window is asked of all the earlier games, and the last-15 window exactly when every team of the universe and no other has played, each fifteen times, with each team's last games as the expected ones |
| `Backtest.AppearancesCount` | scripts/reb_score_backtest.py:388-393 | the counts are the number and the rebounds of a player's earlier appearances with minutes |
| `Backtest.NoLaterInfluence` | scripts/reb_score_backtest.py:313-394 | two seasons with one universe that agree up to and including a day have the same samples for it, whatever comes later |
| `Backtest.NoSameDayInfluence` | scripts/reb_score_backtest.py:341-393 | a game's samples are the same whatever else is played on its day or later |
| `Backtest.InputOrderIrrelevant` | scripts/reb_score_backtest.py:313-340 | permuting the input changes nothing |
| `Backtest.UniverseLeaks` | scripts/reb_score_backtest.py:247-292 | for any two seasons with different team universes and any day with an eligible player-game, some services give different samples for that day |
| `Backtest.LeakExact` | scripts/reb_score_backtest.py:247-394 | for two seasons that agree through a day with an eligible player-game, the samples of that day are equal under all services if and only if both seasons, or neither, have a game with a league team |
| `Backtest.SettledByEarlierGame` | scripts/reb_score_backtest.py:247-394 | once a game through the day has a league team, nothing later reaches the day, with no condition on the universe |
| `Backtest.LaterGameMovesSample` | scripts/reb_score_backtest.py:247-249 | three games of which the third, a day later, changes the second one's samples |
| `Backtest.LastGamesAreLatest` | scripts/reb_score_backtest.py:263-270 | a last-15 selection is the team's latest earlier games: fifteen, or all when there are fewer, and each one left out precedes each one taken |
| `RankStatistics.RankFormula` | scripts/reb_score_backtest.py:400-405 | each rank is the number of smaller values plus half of one more than the number of equal ones |
| `RankStatistics.RanksSum` | scripts/reb_score_backtest.py:400-405 | ranks sum to n(n + 1) / 2 however the values tie |
| `RankStatistics.RanksIgnoreScale` | scripts/reb_score_backtest.py:400-405 | ranks are unchanged by a strictly increasing transform |
| `RankStatistics.CauchySchwarz` | scripts/reb_score_backtest.py:408-414 | the squared numerator is at most the product of the two sums of squares |
| `RankStatistics.SpearmanBounds` | scripts/reb_score_backtest.py:408-414 | rho lies in [-1, 1], and the zero-denominator branch is taken exactly when a side is constant |
| `RankStatistics.SpearmanIgnoresScale` | scripts/reb_score_backtest.py:408-414 | rho sees nothing of the values but their order |
| `RankStatistics.SpearmanSelf` | scripts/reb_score_backtest.py:408-414 | rho of values with themselves is 1 unless they are constant, and then 0 |
| `RankStatistics.SpearmanReverses` | scripts/reb_score_backtest.py:408-414 | reversing the order of one side negates rho |
| `SeasonVerify.CompareOne` | scripts/season_verify.py:237-250 | for one identity: exact means every figure equal, no mismatch means every figure within its tolerance of the reference in either direction, and a mismatch is the largest out-of-tolerance distance |
| `SeasonVerify.CountRows` | scripts/season_verify.py:235-256 | the three counts partition the shared identities, with one mismatch per identity out of tolerance |
| `SeasonVerify.CompareRows` | scripts/season_verify.py:224-265 | the counts add up to the compared identities, the mismatches are worst first, and both one-sided lists are complete and sorted |
| `SeasonVerify.PerfectRate` | scripts/season_verify.py:218-221 | the match rate is 1 if and only if both sides have the same identities and every field is within tolerance |
| `SeasonVerify.RateExact` | scripts/season_verify.py:213-221 | the match rate reaches a threshold if and only if that share of all identities of either side is on both with every figure within tolerance; without identities it is 1 |
| `SeasonVerify.VerifyStream` | scripts/season_verify.py:431-501 | the comparison is of what remains without the incomparable identities, missing and ungoverned games are the two differences of held and governed games; at threshold 1.0 a stream passes if and only if no identity has more games than governed, the held games are the governed ones, both sides have the same identities, and all figures are within tolerance |
| `SeasonVerify.LooserRate` | scripts/season_verify.py:218-243 | loosening tolerances never lowers the match rate |
| `InjuryBackfill.UnstoredExact` | scripts/injury_backfill.py:134-136 | what is left to do is exactly the games in scope whose id has no stored snapshot, each once and in order |
| `InjuryBackfill.SlotsAgree` | scripts/injury_backfill.py:146-187 | games of one tip slot share the outcome of its first search that got through |
| `InjuryBackfill.RunDetermined` | scripts/injury_backfill.py:146-187 | the games and the search results determine every game's outcome and where the run stops |
| `InjuryBackfill.FatesPartition` | scripts/injury_backfill.py:146-187 | every attempted game is in exactly one of chosen, no report, parse failed, network failed |
| `InjuryBackfill.GroupedAreCounted` | scripts/injury_backfill.py:184-185 | the games grouped under the chosen reports number exactly the games counted as stored |
| `InjuryBackfill.ChooseReports` | scripts/injury_backfill.py:146-187 | the loop follows that one run, and its counters, groups and list of unreadable files are those of its outcomes |
| `InjuryBackfill.RunBackfill` | scripts/injury_backfill.py:113-199 | games in scope equal the sum of the six counters on every path, each counter is the number of games with that outcome, and stored is what the store reported as new |

## Left out

- JSON floats, NaN and lone surrogates: numbers are integers and text is Unicode scalar values.
- Timestamp forms other than the extended `YYYY-MM-DDTHH:MM:SS[.ffffff]` with Z or a numeric offset: compact forms, other separators and other fraction lengths are rejected by the model's parser.
- SHA-256 and gzip, each with the UTF-8 step before it: abstract functions on texts, with decompression undoing compression required of the document at hand. Only the lengths compared with the limits go through the modelled UTF-8.
- SQLite pragmas, WAL checkpoints, page limits and file sizes: footprints are measured inputs and the baseline is given.
- OutboxStore.StorageBound: assumes that no admission footprint is below the baseline.
- OutboxStore.ConflictUnreachable: speaks of ids derived by `from_observation`; an envelope constructed by hand with a chosen id can conflict.
- The redaction of failure reasons (`safe_code`): a reason arrives as it is stored.
- Casefolding of characters whose folding has no ASCII letter: the model leaves them as they are, which no forbidden part can tell.
- The order and limit of `aged_pending`, and `get` and `count`: they would only add easy members.
- The drawing of a random lease owner when none is given: the owner is a parameter.
- Envelopes.ObservationAccepted: is stated for any distinct member names; `SourceNames` are the source's, and `SourceNamesDistinct` proves them distinct.
- After-commit hooks of migrations, the database lock itself, and every single migration's schema change: `upgrade` is a function parameter.
- SchemaMigrations.AppliedAtMostOnce: assumes of the migration list that version 40 is not the legacy name and version 42 is the canonical one, as app/migrations.py:3428-3437 has it.
- Column definitions and indexes of the rebuilt tables: a table is its rows and whether its shape is current, with the clash on unique keys and the rows the old definition admits as parameters; the new definition admits every row, as the comment at app/migrations.py:2750-2754 has it.
- TableRebuild.QualifiersRecover: models the qualifier rebuild as a sequence of steps on values; the in-place method is given for the Diet rebuild only.
- The grouping of pointer history by stream and the lineage query behind `_lineage_is_current`: one stream at a time, with the current publications given.
- The text of the lineage columns: they hold decoded JSON, and `None` stands for NULL, empty or undecodable text.
- ChangeImpact.PlanIgnoresOrder: the plan's `reason`, which names the first forcing path, and its ordered `lint` list are not modelled; both depend on the order.
- AST parsing, regular expressions, file reading and git in scripts/changed_scope.py: the graph, the fixture tables and the path predicates are inputs, for a fixed set of known modules.
- Backtest.BuildSamples: assumes unique game ids, at least one prior game required, and that each player's team is among the game's teams; window, diet and scoring services are functions.
- Backtest.LastGamesAreLatest: takes a team as listed at most once per game; a game listing it twice would be counted twice by the code.
- Floating point, bootstrap intervals and report formatting of the backtest: exact reals, with the denominator's root given.
- Governance, payload decoding and the fetching of reference figures in scripts/season_verify.py: rows, tolerances, held games and governed games are inputs, and missing games are reported as themselves rather than as `team:game` text.
- The scope filter `games_to_backfill`, the report cache and its failure counter: games and search outcomes are inputs.
- InjuryBackfill.RunBackfill: assumes that a store call reports between 0 and the games given.
- HTTP client, command line, runner, diagnostics and logging of the collector.
