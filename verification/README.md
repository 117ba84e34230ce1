# Nester API: verified cores

A Dafny model of the stateful cores of the Nester API server (and of its dependency
typosquat check), with proofs over every run rather than over single calls. `dafny verify
dfyconfig.toml` checks the whole project.

| part | files | what is proved, in one line |
|---|---|---|
| Circuit breaker | `RollingWindow`, `BreakerSpec`, `Breaker`, `BreakerRuns`, `BreakerObjectRuns` | the object with its ten-slot ring computes a breaker that keeps a plain log of outcomes; permits, open periods, probes and openings obey their rules in every run |
| Upstream router | `UpstreamRouter` | longest prefix wins, uniquely; registration order never matters exactly when no route is claimed for two breakers |
| Audit log | `AuditSerialization`, `AuditLog`, `AuditDetails`, `AuditTheorems` | every run verifies and every entry keeps telling all that no redaction named; which alterations are found; the hashed text identifies an entry, and the last hash pins down a table, exactly when the free text holds no neighbouring tag |
| Typosquat check | `Levenshtein`, `SortedNames` | the table is the least number of edits over all edit scripts, and a metric |
| Replica router | `ReplicaRouter`, `ReadYourWrites` | users read their own writes exactly when the lag budget is on and within the pin window; scan and round robin are right exactly when the counter does not wrap or the replica count divides 2^64 |
| Feature flags | `FlagCache` | the exact convergence time when invalidations are lost; agreement at every sequential read |
| Envelope encryption | `Envelope` | any rotation keeps ciphertext and meaning; a row opens exactly for the right key and context |
| Migrations | `Migrations`, `MigrationTheorems` | interruptions leave a prefix, restarts end where one run would, and rollbacks after them undo in reverse |
| Freshness | `Freshness` | saturating int64 staleness equals the unbounded-integer one, capped |

Conventions. Objects are classes whose methods are one critical section or one committed
transaction each, proved equal to a function on values; statements about runs are lemmas
over those functions. Time is an integer number of nanoseconds and is passed in. Failing
I/O, randomness and the digest, cipher, JSON and time formats are parameters, with the laws
needed of them stated as predicates (`Lawful`, `Ideal`, `LawfulTime`). No digest is assumed
injective: tamper evidence asks only that it tell apart the two texts verification hashed
for the same row of the two tables.

Preconditions that come from the code. A breaker is called only if its window is at least
ten nanoseconds, because a tenth of it is a divisor; it can be built with any. The breaker's clock does not step back behind the start
of its current slot, which is what Go's monotonic readings give. A caller reports only a
permit it holds.

Where the code and its comments differ, the model follows the code:

- `CanonicalSerialize` is called deterministic; it does not identify an entry whose free
  text contains a tag. `IdentifiesExactlyWhenClean` gives the exact condition.
- The flag cache's TTL is described as bounding staleness when an invalidation is lost. A Get
  that sits between reading the store and writing the cache adds its delay, even if the
  invalidation did arrive (`ConvergesExactly`). A flag change whose audit record fails is
  committed but never broadcast (`AuditFailureLeavesStaleEntry`).
- `readAny` is described as falling back to the primary when all replicas are unavailable.
  When the counter wraps it can also do so with one replica able to serve
  (`FallbackIsRightExactly`), and reads in a row can repeat a replica
  (`RoundRobinIsFairExactly`).
- Rollback is described as undoing the most recently applied migration. With equal
  timestamps it can undo an earlier one (`UndoesTheLastExactly`, `EqualTimesCanUndoTheFirst`).
- The breaker's `Snapshot` is described as free of side effects. It rolls the ring, and its
  contract shows that the breaker's meaning is untouched.

## Model

| member | source | states |
|---|---|---|
| `RollingWindow.TurnKeeps` | apps/api/internal/breaker/breaker.go:396-399 | turning the ring one slot and wiping the new head keeps it an exact picture of the outcome log |
| `RollingWindow.WipeKeeps` | apps/api/internal/breaker/breaker.go:391-394 | after ten or more slots the wiped ring is the exact picture: nothing in the log is still current |
| `RollingWindow.CountKeeps` | apps/api/internal/breaker/breaker.go:353-356 | counting in the head bucket is appending one outcome to the log |
| `RollingWindow.FirstCellsEnds` | apps/api/internal/breaker/breaker.go:373-379 | the buckets in storage order add up to the outcomes of the ten latest slots, wherever the head is |
| `RollingWindow.CountIsCardinality` | apps/api/internal/breaker/breaker.go:373-379 | counting over the log is the size of the sets of its outcomes, and of its failures, in those slots |
| `RollingWindow.RingsAgreeUpToRotation` | apps/api/internal/breaker/breaker.go:384-402 | aging composes: two rings rolled to the same slot by any stops agree bucket by bucket up to rotation, and the bucket j behind the head holds exactly the outcomes j slots back |
| `RollingWindow.ExpiryBounds` | apps/api/internal/breaker/breaker.go:384-402 | an outcome counts for at least nine and never for ten bucket durations |
| `RollingWindow.SlotAfter` | apps/api/internal/breaker/breaker.go:385-401 | rolling by whole steps of the elapsed time lands on the slot of the instant reached |
| `BreakerSpec.Config.WithDefaults` | apps/api/internal/breaker/breaker.go:135-149 | a non-positive field takes its stated default, and a positive policy is untouched |
| `BreakerClass.Breaker.constructor` | apps/api/internal/breaker/breaker.go:238-253 | a new breaker is closed with an empty log under the defaulted policy; it can be run exactly if a tenth of its window is not zero |
| `BreakerClass.Breaker.AdvanceLocked` | apps/api/internal/breaker/breaker.go:384-402 | rolls the ring to the slot of now without changing what it stands for |
| `BreakerClass.Breaker.RollLocked` | apps/api/internal/breaker/breaker.go:390-400 | the clearing loop and the full wipe both keep the ring an exact picture of the log |
| `BreakerClass.Breaker.CountsLocked` | apps/api/internal/breaker/breaker.go:373-379 | returns the totals and failures of exactly the outcomes in the ten latest slots |
| `BreakerClass.Breaker.TrippedLocked` | apps/api/internal/breaker/breaker.go:365-371 | true exactly if those reach the minimum and the failure ratio |
| `BreakerClass.Breaker.SnapshotLocked` | apps/api/internal/breaker/breaker.go:496-523 | the report computed from the ring is the one computed from the log, whose fields `SnapshotSpelledOut` gives |
| `BreakerClass.Breaker.SetStateLocked` | apps/api/internal/breaker/breaker.go:412-439 | a change of state opens a new generation, frees the probe slot, stamps an opening and clears the window of a closing |
| `BreakerClass.Breaker.OpenErrorLocked` | apps/api/internal/breaker/breaker.go:448-454 | a refusal tells the wait left of the open period, never negative |
| `BreakerClass.Breaker.Allow` | apps/api/internal/breaker/breaker.go:264-306 | the ring-based breaker gives the verdict and new state of the log-based one, and announces exactly the move from open to half-open |
| `BreakerClass.Breaker.Record` | apps/api/internal/breaker/breaker.go:313-362 | likewise for every report, including stale, ignored and invalid ones; a change of state is announced with the states it lies between |
| `BreakerClass.Breaker.CountLocked` | apps/api/internal/breaker/breaker.go:353-356 | counting in the ring appends one outcome, stamped with its slot, to the log |
| `BreakerClass.Breaker.JudgeLocked` | apps/api/internal/breaker/breaker.go:358-361 | a closed breaker whose window trips opens, and announces it |
| `BreakerClass.Breaker.Snapshot` | apps/api/internal/breaker/breaker.go:477-489 | reports the log-based state, field by field that of `SnapshotSpelledOut`, and leaves the breaker's meaning unchanged although the ring moves |
| `BreakerRuns.EveryRunIsDisciplined` | apps/api/internal/breaker/breaker.go:274-341 | in every run: no current permit outstanding while open, only ordinary ones while closed, exactly the one probe while half-open; granted plus rejected equals requests |
| `BreakerRuns.ProbeNeverStrands` | apps/api/internal/breaker/breaker.go:332-341 | a probe reported as ignored frees its slot: the next request is granted as a probe |
| `BreakerRuns.RecordShape` | apps/api/internal/breaker/breaker.go:325-330 | a report from another generation changes nothing; a change of state always starts a new generation without a probe |
| `BreakerRuns.OnlyLegalMoves` | apps/api/internal/breaker/breaker.go:283-361 | the only moves are closed to open, open to half-open after the open period, and half-open to open or closed by the probe's outcome |
| `BreakerRuns.MovesExactly` | apps/api/internal/breaker/breaker.go:264-371 | the state after any call of a run: closed opens exactly at a justified report of its period, open turns half-open exactly at a request once the period is over, half-open goes exactly where the outcome of its probe sends it |
| `BreakerRuns.OpenPeriodIsAbsolute` | apps/api/internal/breaker/breaker.go:264-330 | every request within the open period is refused and no report, however late, has an effect; the first request after the period is granted as the probe |
| `BreakerRuns.SnapshotsAreUnobservable` | apps/api/internal/breaker/breaker.go:470-489 | in the log-based runs removing all snapshots changes no later answer and no later state; `DriveWatchedAndUnwatched` is the statement about the object |
| `BreakerObjectRuns.Perform` | apps/api/internal/breaker/breaker.go:264-489 | one call on the object is one step of the run, with its verdict or snapshot |
| `BreakerObjectRuns.Drive` | apps/api/internal/breaker/breaker.go:238-523 | the object driven through any run ends in the state, and gives the answers and snapshots, of the log-based run, so every statement about runs holds of the object with its ring |
| `BreakerObjectRuns.DriveWatchedAndUnwatched` | apps/api/internal/breaker/breaker.go:470-489 | of two breakers given the same calls, one also read by snapshots at any instants, both answer every request alike and end with the same meaning, although their rings were rolled at different times |
| `BreakerRuns.SnapshotTellsWhatAllowDoes` | apps/api/internal/breaker/breaker.go:470-512 | the reported state is the one a request at that instant is decided in, and the reported wait the one it is told |
| `BreakerRuns.SnapshotSpelledOut` | apps/api/internal/breaker/breaker.go:496-523 | total and failures are the numbers of outcomes and of failures in the ten latest slots, the ratio times the total is the failures, the state and the wait follow from what is left of the open period |
| `BreakerRuns.RefusalNamesTheWait` | apps/api/internal/breaker/breaker.go:448-454 | a refusal names what is left of the open period, and zero once it is over |
| `BreakerRuns.EveryRefusalNamesTheWait` | apps/api/internal/breaker/breaker.go:281-299 | in every run a request is refused exactly within the open period or while a probe is in flight; the first is told what is left of the period, the second no wait |
| `BreakerRuns.WindowExactly` | apps/api/internal/breaker/breaker.go:346-438 | in every run opening stamps the instant, closing clears the window, a report of the current closed period is appended, and nothing else touches stamp or window |
| `BreakerRuns.RejectedCountsRefusals` | apps/api/internal/breaker/breaker.go:286-299 | in every run the rejection counter is the number of requests refused |
| `BreakerRuns.PeriodIsOneState` | apps/api/internal/breaker/breaker.go:412-424 | one generation is one uninterrupted stretch in one state |
| `BreakerRuns.ClosedLogIsTheRecord` | apps/api/internal/breaker/breaker.go:346-436 | a closed breaker's window derives from exactly the reports made since it closed |
| `BreakerRuns.ClosedSnapshotCountsThePeriod` | apps/api/internal/breaker/breaker.go:477-523 | in every run the snapshot of a closed breaker counts the reports made since it closed that fall into the ten latest slots, the failures among them, and the requests refused so far |
| `BreakerRuns.OpensExactlyWhenJustified` | apps/api/internal/breaker/breaker.go:346-371 | a closed breaker opens exactly at a report of its own period whose window reaches the minimum count and failure share |
| `BreakerRuns.CountedOutcomesAreRecent` | apps/api/internal/breaker/breaker.go:353-402 | every outcome counted then was reported in that period, less than one window before |
| `BreakerRuns.RecentOutcomesAreCounted` | apps/api/internal/breaker/breaker.go:353-402 | and none reported in that period within nine bucket durations is left out |
| `UpstreamRouter.Router.Register` | apps/api/internal/breaker/transport.go:45-75 | adds a route, with the lower-cased host and the path less its final slash, exactly for a usable URL and breaker whose host and prefix are unclaimed; a missing breaker, an unparsable URL, a missing host and a claimed route are each refused as such, the last naming the holder |
| `UpstreamRouter.Router.For` | apps/api/internal/breaker/transport.go:88-113 | returns the breaker of a route on the host whose prefix the path extends, the longest such, and nothing exactly if the path extends no prefix on the host |
| `UpstreamRouter.UnderAPrefixIsGuarded` | apps/api/internal/breaker/transport.go:93-113 | every URL below a registered prefix is guarded, by a breaker of that host whose prefix begins the path and is at least as long |
| `UpstreamRouter.UnguardedExactly` | apps/api/internal/breaker/transport.go:96-111 | a URL is unguarded exactly if its path is no registered prefix of its host followed by anything |
| `UpstreamRouter.RegisteredIsGuarded` | apps/api/internal/breaker/transport.go:45-113 | once a URL was registered, accepted or not, everything below it is guarded |
| `UpstreamRouter.TrimmedExactly` | apps/api/internal/breaker/transport.go:58-61 | the prefix is the path without one final slash |
| `UpstreamRouter.FinalSlashIsNoNewRoute` | apps/api/internal/breaker/transport.go:58-70 | a path with and without its final slash is one route: whichever comes second is refused |
| `UpstreamRouter.AnswerIsUnique` | apps/api/internal/breaker/transport.go:63-70 | because of the collision check a URL has only one answer |
| `UpstreamRouter.OrderNeverMattersExactlyWhenConsistent` | apps/api/internal/breaker/transport.go:39-113 | all orders of the same registrations answer every URL alike if and only if no host and prefix is claimed for two breakers |
| `AuditSerialization.IdentifiesExactlyWhenClean` | apps/api/internal/audit/audit.go:79-87 | no other entry has the same text if and only if no free-text field contains the tag that opens it or the tag that closes it |
| `AuditSerialization.SerializeSpelledOut` | apps/api/internal/audit/audit.go:79-87 | the text, tag by tag and field by field |
| `AuditSerialization.DigitsRead` | apps/api/internal/audit/audit.go:79-87 | the decimal form reads back as the number, in digits, without leading zeros |
| `AuditSerialization.NewlineFreeIsClean` | apps/api/internal/audit/audit.go:79-87 | one-line fields meet that condition |
| `AuditLog.AuditService.LogAction` | apps/api/internal/audit/audit.go:138-236 | appends one row, or nothing if the detail has no JSON form or the transaction does not commit: next sequence, last hash, whole microseconds, the actor, action and target given, and a detail that reads as the value given; earlier rows stay |
| `AuditLog.CanonicalKeepsValue` | apps/api/internal/audit/audit.go:95-136 | canonicalizing fails exactly for a value with no JSON form, and its text reads as the value given: empty forms as the empty object, invalid JSON as its wrapping |
| `AuditLog.AuditService.VerifyChain` | apps/api/internal/audit/audit.go:238-314 | intact exactly if no selected row has a fault, else the first fault of the first faulty row; which alterations are faults is stated by the rows below |
| `AuditDetails.NormalizeKeepsValue` | apps/api/internal/audit/audit.go:118-133 | the canonical form reads as the value of the text, or as the wrapping of a text that is not JSON |
| `AuditDetails.CanonicalFormsAgreeExactly` | apps/api/internal/audit/audit.go:118-133 | two details have one canonical form exactly if they stand for one value |
| `AuditDetails.AlteredDetailIsFoundExactly` | apps/api/internal/audit/audit.go:286-295 | replacing the detail of a faultless row is found, as a detail mismatch, exactly if the row is unredacted and the text stands for another value; no other row is blamed |
| `AuditDetails.AlteredFieldsAreFound` | apps/api/internal/audit/audit.go:268-304 | rewriting any chained field of a faultless clean row is found, and named after the first check the new fields fail |
| `AuditDetails.AlteredHashIsFound` | apps/api/internal/audit/audit.go:273-304 | a replaced entry hash is found at its row, and as a broken link at the next |
| `AuditDetails.RemovedRowIsFound` | apps/api/internal/audit/audit.go:268-270 | a row taken out of the middle is found as a gap at the row that follows |
| `AuditTheorems.SelectedExactly` | apps/api/internal/audit/audit.go:243-248 | the rows looked at are exactly those of the range |
| `AuditTheorems.AlteredDetailIsReported` | apps/api/internal/audit/audit.go:238-314 | after such a replacement anywhere in a verifying table, verifying the whole table can answer nothing but this row and a detail mismatch |
| `AuditLog.AuditService.RedactDetail` | apps/api/internal/audit/audit.go:337-407 | on success the detail of the addressed row has the members it had, those named now reading [REDACTED] and the others as they were, the row is marked, and nothing else of the table changes; otherwise nothing changes and the result says why |
| `AuditLog.AuditService.RedactEntry` | apps/api/internal/audit/audit.go:316-332 | redacts like that and then appends the entry that records it, whose loss is not an error |
| `AuditLog.RedactionOverwrites` | apps/api/internal/audit/audit.go:370-395 | what a redaction leaves in the stored row, member by member |
| `AuditLog.NoticeIsRecorded` | apps/api/internal/audit/audit.go:326-329 | the entry that records a redaction is of the system, names the redacted sequence and lists the keys |
| `AuditDetails.RedactsExactly` | apps/api/internal/audit/audit.go:350-382 | which result a redaction has, in terms of the table: absent sequence, detail not an object, no named member, commit |
| `AuditDetails.RedactedTablesTellExactly` | apps/api/internal/audit/audit.go:370-395 | two tables that differ in the detail of the entry become one table by the redaction if and only if the details agree on all that was not named |
| `AuditTheorems.EveryEntryStillTells` | apps/api/internal/audit/audit.go:138-407 | whatever is done after an entry was written, it keeps its place, chained fields and hash, and its detail keeps its value but for the members named by the committed redactions of that entry, which are all overwritten; it is marked exactly if it had one |
| `AuditDetails.RedactionTellsExactly` | apps/api/internal/audit/audit.go:370-377 | two details look alike after redaction if and only if they have the same members and agree on all that were not named: nothing of a named value is left and nothing else is lost |
| `AuditDetails.RedactionsCompose` | apps/api/internal/audit/audit.go:370-377 | redacting in several calls is redacting once with all their keys |
| `AuditTheorems.StoredDetailReproduces` | apps/api/internal/audit/audit.go:95-136 | re-reading the JSONB column yields the canonical text that was hashed |
| `AuditTheorems.AppendKeepsChain` | apps/api/internal/audit/audit.go:149-235 | appending to a chain that verifies gives one that verifies |
| `AuditTheorems.RedactionKeepsHashes` | apps/api/internal/audit/audit.go:390-395 | redaction changes no chained field and no entry hash, and only the addressed row |
| `AuditTheorems.RedactionKeepsChain` | apps/api/internal/audit/audit.go:286-302 | a redacted chain still verifies |
| `AuditTheorems.EveryRunVerifies` | apps/api/internal/audit/audit.go:138-407 | after any interleaving of committed or rolled-back appends and redactions sequences are gap-free from 1 and every range is answered as intact |
| `AuditTheorems.MustTruncateBeforeHashing` | apps/api/internal/audit/audit.go:184-191 | a stored row reproduces its hash exactly if the hashed instant was whole microseconds |
| `AuditTheorems.TamperEvidence` | apps/api/internal/audit/audit.go:254-307 | any verifying table with the same last sequence and hash as a clean one agrees with it on every chained field, and on the value of every detail neither has redacted |
| `AuditTheorems.PinnedDownExactlyWhenClean` | apps/api/internal/audit/audit.go:254-307 | a verifying table with one-line hashes is pinned down by its last sequence and hash if and only if every row's free text is clean |
| `AuditTheorems.RunsAreTamperEvident` | apps/api/internal/audit/audit.go:138-314 | the same for the table of any run whose actors, actions and targets hold no newline, whatever the other table contains |
| `Levenshtein.FillTable` | scripts/typosquat_check.py:58-70 | every cell is the distance of its two prefixes |
| `Levenshtein.Compute` | scripts/typosquat_check.py:56-71 | the result is the least number of insertions, deletions and substitutions, in any order at any positions |
| `Levenshtein.DistanceIsEditDistance` | scripts/typosquat_check.py:64-71 | the recurrence is attained by a script and undercut by none |
| `Levenshtein.NoShorterScript` | scripts/typosquat_check.py:64-71 | no edit script is shorter than the distance |
| `Levenshtein.Realized` | scripts/typosquat_check.py:64-71 | some edit script has exactly that length |
| `Levenshtein.Symmetric` | scripts/typosquat_check.py:56-71 | the distance is symmetric |
| `Levenshtein.ZeroOnlyOnEqual` | scripts/typosquat_check.py:56-71 | it is zero exactly on equal strings |
| `Levenshtein.Triangle` | scripts/typosquat_check.py:56-71 | it satisfies the triangle inequality |
| `Levenshtein.Bounded` | scripts/typosquat_check.py:56-71 | it lies between the difference and the larger of the lengths |
| `Levenshtein.SuspectsOf` | scripts/typosquat_check.py:104-110 | the known packages within one or two edits of one long, unequal name |
| `Levenshtein.ReportsExactly` | scripts/typosquat_check.py:104-110 | what is reported, in terms of edit scripts: unequal names of more than three characters whose lower-case forms are one or two edits apart |
| `Levenshtein.FindSuspicious` | scripts/typosquat_check.py:100-111 | lists exactly the pairs of unequal names of more than three characters that are one or two edits apart in lower case, with that number, each once, by dependency in lexicographic order |
| `SortedNames.LexExactly` | scripts/typosquat_check.py:103 | the order: a name comes before another if it begins it or has the smaller character where they first differ |
| `ReplicaRouter.Router.constructor` | apps/api/internal/db/router.go:81-104 | a replica starts healthy exactly if its pool opened |
| `ReplicaRouter.Router.ReadAny` | apps/api/internal/db/router.go:143-164 | the index is in range for every counter value; a replica that serves is open, reported healthy and within a positive lag budget, and the first such the scan meets; the primary serves only if every replica met is closed, down or behind |
| `ReplicaRouter.Router.IsPinned` | apps/api/internal/db/router.go:281-293 | pinned up to and including the deadline; asking later drops the pin |
| `ReplicaRouter.Router.Read` | apps/api/internal/db/router.go:129-134 | a pinned user gets the primary without moving the cursor, others what ReadAny gives, so never a closed, unhealthy or lagging replica |
| `ReplicaRouter.Router.NoteWrite` | apps/api/internal/db/router.go:169-173 | pins a named user for one window from now |
| `ReplicaRouter.Router.SetReplicaHealth` | apps/api/internal/db/router.go:183-192 | stores the given health of one replica and changes nothing else, and nothing at all for an index out of range |
| `ReplicaRouter.Router.SetReplicaLag` | apps/api/internal/db/router.go:196-205 | stores the given lag of one replica and changes nothing else, and nothing at all for an index out of range |
| `ReplicaRouter.ScanIsCompleteExactly` | apps/api/internal/db/router.go:148-164 | the scan meets every replica if and only if it does not wrap or the number of replicas divides 2^64 |
| `ReplicaRouter.MissesOneOtherwise` | apps/api/internal/db/router.go:148-164 | otherwise it names a replica that is never looked at |
| `ReplicaRouter.FallbackIsRightExactly` | apps/api/internal/db/router.go:143-164 | the primary answers exactly when no replica can serve, whatever their states, if and only if the scan does not wrap or the number of replicas divides 2^64 |
| `ReplicaRouter.ScanTakesTheFirst` | apps/api/internal/db/router.go:154-160 | with every replica able to serve, a scan answers with the replica it looks at first |
| `ReplicaRouter.ReadsTakeTurns` | apps/api/internal/db/router.go:153-160 | so read number k of a row from a given counter goes to replica Turn(k) |
| `ReplicaRouter.RoundRobinIsFairExactly` | apps/api/internal/db/router.go:148-160 | n reads in a row use every one of n servable replicas if and only if the counter does not wrap meanwhile or n divides 2^64 |
| `ReplicaRouter.FairIsOnceEach` | apps/api/internal/db/router.go:148-160 | and then none of them twice |
| `ReplicaRouter.WrappingCounterRepeats` | apps/api/internal/db/router.go:148-160 | three replicas and a wrapping counter: two reads in a row go to the same one |
| `ReadYourWrites.EveryRunIsSound` | apps/api/internal/db/router.go:274-293 | in every run a noted write is still pinned or older than the window, despite lazy deletion |
| `ReadYourWrites.ReadMayServe` | apps/api/internal/db/router.go:129-134 | what Read returns by its contract is a pool the run-level rule allows |
| `ReadYourWrites.KnowsTheLastReports` | apps/api/internal/db/router.go:183-205 | in every run the router holds of each replica the health and lag last reported |
| `ReadYourWrites.PinnedExactly` | apps/api/internal/db/router.go:273-293 | in every run a user is pinned exactly through one window after the last noted write, although asking drops pins |
| `ReadYourWrites.ReplicaServesExactly` | apps/api/internal/db/router.go:42-164 | in every run a read may go to a replica if and only if its pool opened, it was last reported healthy and within a positive budget, and the reader is not pinned |
| `ReadYourWrites.DownReplicaIsLeftAlone` | apps/api/internal/db/router.go:42-192 | after a last report that a replica is down, or behind its budget, no read goes to it |
| `ReadYourWrites.SoundReads` | apps/api/internal/db/router.go:126-134 | then a read is sent only to a pool that has the reader's noted writes |
| `ReadYourWrites.EarlyReadMisses` | apps/api/internal/db/router.go:39-46 | with the lag budget off or above the window there is a run after which the router's scan sends the reader, from every counter value, to a replica without the write |
| `ReadYourWrites.ReadsOwnWritesExactly` | apps/api/internal/db/router.go:39-173 | users read their own noted writes in every run if and only if 0 < maxLag <= window |
| `FlagCache.Cache.constructor` | apps/api/internal/flags/cache.go:33-38 | an empty cache; a non-positive TTL becomes thirty seconds |
| `FlagCache.Cache.Get` | apps/api/internal/flags/cache.go:43-62 | a fresh entry answers alone; otherwise the source answers and only definite answers are kept |
| `FlagCache.Cache.Invalidate` | apps/api/internal/flags/cache.go:66-70 | drops one entry |
| `FlagCache.Cache.InvalidateAll` | apps/api/internal/flags/cache.go:74-78 | drops every entry |
| `FlagCache.Store.Get` | apps/api/internal/flags/store.go:52-57 | the stored flag, its definite absence, or a transient error |
| `FlagCache.Store.Set` | apps/api/internal/flags/store.go:83-130 | a change takes effect exactly if accepted, read and written: body and update time as given, creation time kept, other flags untouched; the listener hears exactly of audited changes |
| `FlagCache.Store.Delete` | apps/api/internal/flags/store.go:133-148 | removes exactly an existing flag whose read and write succeed, under the same rule |
| `FlagCache.EveryRunIsSound` | apps/api/internal/flags/cache.go:43-78 | however Gets interleave, an entry is the truth or runs out within ttl of the last change or of the last store step of a Get that had read before it |
| `FlagCache.EveryQuietFlagAgrees` | apps/api/internal/flags/cache.go:43-78 | once ttl has passed since the last change and since that store step, whatever the cache serves is what the store holds, whichever invalidations are lost |
| `FlagCache.PromptRunsArePunctual` | apps/api/internal/flags/cache.go:51-60 | if Gets write within a delay of reading, that store step follows the change by at most the delay |
| `FlagCache.LateStoreUnsettled` | apps/api/internal/flags/cache.go:51-60 | a run that still serves a stale flag at any time short of that |
| `FlagCache.ConvergesExactly` | apps/api/internal/flags/cache.go:9-62 | whichever invalidations are lost, cache and store agree a given time after the last change if and only if that time is at least TTL plus the longest gap between reading the store and writing the cache |
| `FlagCache.AgreementLostExactly` | apps/api/internal/flags/store.go:118-148 | one sequential operation loses agreement exactly if it changes a cached flag untold |
| `FlagCache.SequentialReadsAgree` | apps/api/internal/flags/store.go:80-148 | with invalidation wired and no audit failure every sequential read is what the store holds |
| `FlagCache.AuditFailureLeavesStaleEntry` | apps/api/internal/flags/store.go:122-129 | an audit failure after the write leaves the cache serving the old answer |
| `Envelope.NewEnvelopeCipher` | apps/api/internal/crypto/envelope.go:87-118 | succeeds exactly on a usable configuration, with every version able to unwrap, and names what is missing otherwise |
| `Envelope.SealHolds` | apps/api/internal/crypto/envelope.go:143-178 | a sealed record stands for its plaintext and context under the fresh data key and the active master key, each layer under its own nonce |
| `Envelope.SealSucceedsExactly` | apps/api/internal/crypto/envelope.go:143-178 | sealing succeeds, for every plaintext and context, exactly if the generator delivers the data key and both nonces |
| `Envelope.UnwrapsExactly` | apps/api/internal/crypto/envelope.go:267-293 | the data key comes back exactly for a cipher with the record's master key under the record's version; a version without a key is unknown and another key is not authentic |
| `Envelope.OpensExactly` | apps/api/internal/crypto/envelope.go:186-212 | a record opens, to its plaintext, exactly for such a cipher in the sealed context, with the same errors otherwise |
| `Envelope.AlteredVersionFails` | apps/api/internal/crypto/envelope.go:247-293 | under any other version no cipher unwraps or opens the record, even with the same key there |
| `Envelope.MixedRecordFails` | apps/api/internal/crypto/envelope.go:51-66 | the wrapped key of one record never opens the ciphertext of another |
| `Envelope.RewrapKeepsMeaning` | apps/api/internal/crypto/envelope.go:224-245 | rewrapping keeps the ciphertext and the meaning and moves the record to the active version |
| `Envelope.RewrapSucceedsExactly` | apps/api/internal/crypto/envelope.go:224-245 | it succeeds exactly if there is nothing to do or the cipher has the record's key and randomness |
| `Envelope.RewrapIsIdempotent` | apps/api/internal/crypto/envelope.go:221-227 | rewrapping again returns the same record |
| `Envelope.RotationKeepsMeaning` | apps/api/internal/crypto/envelope.go:214-264 | after any attempts through any ciphers, repeats and failures included, ciphertext and meaning are kept |
| `Envelope.OldKeysCanRetire` | apps/api/internal/crypto/envelope.go:214-245 | once a cipher that could unwrap the row has rewrapped it, the row is on its active version and that one key opens it |
| `Envelope.SealedRowsSurviveRotation` | apps/api/internal/crypto/envelope.go:143-245 | a sealed row then opens to the sealed plaintext for exactly the ciphers with the key it was last rewrapped under, in exactly the sealed context |
| `Migrations.UpFiles` | apps/api/internal/db/migrate.go:123-138 | exactly the regular up files, in lexicographic order |
| `Migrations.VersionExactly` | apps/api/internal/db/migrate.go:161-166 | an up file is its version followed by the suffix |
| `Migrations.Database.MigrateUp` | apps/api/internal/db/migrate.go:24-74 | applies and records unrecorded files one transaction at a time up to the first that does not commit |
| `Migrations.Database.MigrateDown` | apps/api/internal/db/migrate.go:79-120 | undoes and unrecords the record that sorts last exactly if its script runs and the transaction commits; otherwise nothing changes |
| `MigrationTheorems.OneCall` | apps/api/internal/db/migrate.go:39-73 | one call applies a prefix of what is pending, succeeds exactly if that is all, and otherwise stopped at a file whose script or transaction failed |
| `MigrationTheorems.PendingIsSorted` | apps/api/internal/db/migrate.go:122-138 | what is pending keeps the lexicographic order of the files |
| `MigrationTheorems.Restart` | apps/api/internal/db/migrate.go:34-43 | a restart picks up where the interrupted calls stopped |
| `MigrationTheorems.EveryRestartKeepsAPrefix` | apps/api/internal/db/migrate.go:18-74 | after any calls failing anywhere exactly a prefix of the pending files is both executed and recorded |
| `MigrationTheorems.DirectoryIsAppliedInOrder` | apps/api/internal/db/migrate.go:18-138 | for a directory listing: the regular files named by an unrecorded version and .up.sql are applied from the front in lexicographic order, none skipped, however the calls are interrupted |
| `MigrationTheorems.RestartsEqualOneCall` | apps/api/internal/db/migrate.go:18-74 | interrupted calls that end in success leave the schema and versions of one uninterrupted call |
| `MigrationTheorems.DistinctNamesDistinctVersions` | apps/api/internal/db/migrate.go:161-166 | distinct up files carry distinct versions |
| `MigrationTheorems.LatestIsMaximal` | apps/api/internal/db/migrate.go:84-87 | the rollback query returns a record no other sorts after |
| `MigrationTheorems.UndoesTheLastExactly` | apps/api/internal/db/migrate.go:84-87 | rollback takes the record applied last if and only if the query's order agrees on it |
| `MigrationTheorems.RollbackUndoesInReverse` | apps/api/internal/db/migrate.go:24-120 | after any interrupted and restarted calls that got through k pending files, with inverse scripts and the query's order that of application, j <= k rollbacks leave exactly the schema and versions of the first k - j |
| `MigrationTheorems.RollbackRestores` | apps/api/internal/db/migrate.go:24-120 | k rollbacks restore the schema and versions the run began with |
| `MigrationTheorems.AdvancingClockKeepsOrder` | apps/api/internal/db/migrate.go:12-74 | a clock that advances from transaction to transaction keeps that order through all interruptions |
| `MigrationTheorems.IncreasingTimesAreInOrder` | apps/api/internal/db/migrate.go:12-16 | strictly increasing timestamps are such an order |
| `MigrationTheorems.EqualTimesCanUndoTheFirst` | apps/api/internal/db/migrate.go:84-87 | two migrations of one instant that are undone first-in first-out |
| `Freshness.LedgerLagDuration` | apps/api/internal/freshness/freshness.go:242-248 | the true product, capped, with no int64 wrap |
| `Freshness.AddSaturating` | apps/api/internal/freshness/freshness.go:252-258 | the true sum, capped, with no int64 wrap |
| `Freshness.Tracker.constructor` | apps/api/internal/freshness/freshness.go:134-152 | ages from construction; a non-positive budget becomes the default |
| `Freshness.Tracker.Observe` | apps/api/internal/freshness/freshness.go:155-167 | replaces the sample and its instant |
| `Freshness.Tracker.ObserveFailure` | apps/api/internal/freshness/freshness.go:175-184 | moves nothing but the error count |
| `Freshness.Tracker.Snapshot` | apps/api/internal/freshness/freshness.go:195-235 | the lag is the unbounded-integer age plus ledgers times five seconds, capped and never negative |
| `Freshness.StaleIsIdealExactly` | apps/api/internal/freshness/freshness.go:232-258 | staleness matches the ideal comparison in every state if and only if the budget is below the largest duration |
| `Freshness.LagNeverFallsInSilence` | apps/api/internal/freshness/freshness.go:169-184 | without a successful sample the lag never decreases |
| `Freshness.SilentIndexerIsStale` | apps/api/internal/freshness/freshness.go:145-150 | a silent indexer is stale at every instant more than one budget after its last sample |

## Left out

- HTTP handlers, command wiring, metrics, configuration loading, the frontend and the contracts: plumbing without a hard invariant.
- `Classify` and `RoundTrip` of the breaker's transport: a status-code table, and the pairing of Allow with Record that the runs take as their rule.
- `uint64` wrap-around of the breaker's generation and rejection counters: both are unbounded here, so 2^64 state changes are out of reach.
- Floating-point rounding of the breaker's failure ratio: the ratio is a real number.
- Breaker names, transition callbacks and backward clock steps: the first two carry no state, and the clock is taken as monotonic.
- URL parsing, white-space trimming and case folding in the upstream router: a parsed URL is given, and lower-casing is any function.
- SHA-256, RFC 3339, JSON, base64 and AES-GCM themselves: they are parameters with stated laws; JSON numbers are integers.
- Audit rows written before the chain existed, which have no sequence: the table starts empty. Anchoring writes a file and is not modelled, and neither are the unchained columns.
- A commit that reports an error but took effect: a transaction either commits or leaves the database unchanged.
- `List`, flag validation, the secret guard and percentage rollout of the flag package: single-branch gates that appear as the refusal of a Set.
- Zeroing of key material after use: nothing later reads it.
- The nil receivers of the freshness tracker, which answer with an empty snapshot.
- Reading manifests in the typosquat check: the two lists of distinct names are given, and the order in which Python walks the set of known packages is that of the second list.
- `internal/cache`, `internal/forecast`, `internal/harvest`, `internal/export` and JWT handling: best-effort locks, floating point, or easy gates.
