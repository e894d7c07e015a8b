# NexaHR: a verified model of the audit log, the outbox, the evaluation tables and the settings codecs

This project models, in Dafny, the parts of NexaHR whose correctness cannot be read off one function, and
proves what they promise. Check it with `dafny verify dfyconfig.toml`.

**The audit log** (`Json`, `JsonReader`, `AuditChain`, `AuditTampering`, `AuditLedger`, `AuditRecords`, `AuditForms`,
`AuditProtocol`). Each row's hash covers the canonical JSON of its content and the hash of the row before it. The
model prints that JSON character by character and proves the text exact: equal texts for equal values and no others,
and a reader of the RFC's grammar gets the row's columns back. On top of it stand the walk and its three forms, tamper
evidence by backward induction from one hash, the agreement of the fast check with the full one, the ledger of anchors
over every run and what a failed check records, what each form sees of an edit, a forgery, a deletion and a shortened
or rewritten log, and the advisory-lock protocol over every interleaving of transactions. SHA-256 is a parameter, any
function from text to text. The lemmas that need it say so with `CollisionFree`: different texts have different
hashes, and no text hashes to the constant the chain starts from.

**The delivery outbox** (`Delivery`, `DeliveryRuns`, `DeliveryProgress`). A sweep selects, sends, counts and backs
off. The database's answer to the candidate query is any correct answer; the channels are a function that delivers,
refuses for now or for good, or fails in an unexpected way.

**The evaluation tables** (`EvaluationDb`, `BulkEvaluation`, `BulkUndisturbed`, `Documents`). Tables are maps;
foreign keys, checks, the partial unique index and the two self-evaluation triggers are guards on statements; a
savepoint undoes one row. Bulk creation runs with other transactions free to commit, before each insertion,
whatever keys and unique indexes allow. Archiving is a state machine of any number of transactions.

**Settings codecs and caches** (`Decimal`, `Text`, `Url`, `Endpoint`, `EnvFile`, `Steps`, `OrmSession`,
`Numerals`, `Integrations`, `ModuleStates`). The launcher prints a PostgreSQL address into a settings file and three readers
written independently read it back. The integration settings are stored as text and laid over the running
configuration. The module switches are read through a snapshot.

Where the source updates something in place the model is a class or a method with a loop, proved against a function;
what the source promises is then proved of that function. Every induction is written out; automatic induction is
switched off wherever Dafny would apply it.

Some promises fail, and the model says exactly when:

- A row whose channel keeps failing unexpectedly is never abandoned (`NoCapWhenCrashing`), and enough rows that wait for
  ever close the queue for younger ones (`StarvedForEver`); the attempt cap is met
  exactly by the other outcomes (`CapHoldsUnlessCrashed`). Once the channel recovers even such rows are resolved
  (`GoodRunsResolveEverything`).
- The full form cannot see rows cut off the end of the log, however many, nor a last row edited and re-hashed
  (`ShorteningByForms`, `EditAndRehashIsFound`). The since-anchor form does exactly when this reaches the anchor's row,
  and in general accepts a log that passes the full form exactly when everything up to that row is there and reads as it
  did (`FastIsExact`); a single edit, forgery or deletion is decided for both forms and every row (`EditByForms`,
  `RehashByForms`, `DeletionByForms`). But the next recorded check anchors whatever head it finds, and then the report
  is gone (`RecordingAcceptsTheLog`, `RecordingSilencesShortening`).
- The two halves of the self-evaluation trigger, run side by side from one state, can let through what they refuse
  one after the other: exactly when the account is being linked to the very person whose chain it joins, in an access
  row (`UncoordinatedHalves`) or in a record (`UncoordinatedRecord`); `SeparationCanBreak` gives the smallest case.
- A saved setting is documented to take effect at once. It does exactly when its key was stored before, or when the
  value equals the default: the session does not flush by itself, so a refresh before the commit does not see an
  added row (`TakesEffect`).
- The module snapshot outlives a rollback. Over every run, answers are fresh exactly when no snapshot is held or the
  read that took it saw what the table has now (`FreshExactlyWhen`, `RollbackIsFreshExactlyWhen`). A transaction that
  reads no switch after writing one is always safe (`EndOfTransaction`); written, read and rolled back, with or without
  a flush between, the snapshot shows a value that was undone (`PendingReadLeavesStale`, `FlushedReadLeavesStale`).
- The launcher's regular expression can match a bare key on one line with an `=` on a later one, and then takes the
  word that stands there instead of the address the other readers see. `AppliedIsFound` says exactly when that matters;
  `CompletedLineHides` is a file in which it does for every endpoint but localhost:5432, this reader's own fallback.

## Model

| member | source | states |
|---|---|---|
| `Json.DumpsIsCanonical` | backend/app/services/audit.py:41-65 | for all documents, equal printed texts exactly for equal JSON values: key order never shows, nothing else is lost |
| `Json.SortKeysKeepsMeaning` | backend/app/services/audit.py:52-65 | sorting the keys of every nested object keeps the value and leaves it sorted |
| `Json.SortedIsUnique` | backend/app/services/audit.py:52-65 | two sorted documents of equal value are identical |
| `Json.EmitSplits` | backend/app/services/audit.py:65 | a printed value followed by any closing text is read in one way only |
| `Json.EmitCharsSplits` | backend/app/services/audit.py:65 | escaped string contents (section 7 of RFC 8259) are read in one way only |
| `JsonReader.DumpsReadsBack` | backend/app/services/audit.py:41-65 | a reader written from the grammar of RFC 8259 alone reads the printed text of any document back as what the document means |
| `AuditChain.CanonicalIsExact` | backend/app/services/audit.py:41-65 | the text that is hashed is equal exactly for the same six fields |
| `AuditChain.CanonicalReads` | backend/app/services/audit.py:50-65 | read as JSON, the hashed text is an object with the six names, each holding its own column's value |
| `AuditChain.Walk` | backend/app/services/audit.py:223-277 | the loop reports the first bad row, why it is bad, and how many rows were looked at |
| `AuditChain.Report` | backend/app/services/audit.py:269-277 | the verdict is ok exactly when every row is linked to the one before and carries its own hash |
| `AuditChain.FirstBad` | backend/app/services/audit.py:236-267 | every earlier row is good and the row named is not |
| `AuditChain.LatestAnchorIsNewest` | backend/app/services/audit.py:119-135 | there is no anchor only when no recorded check is successful and names a row; otherwise it is one that no later such check follows |
| `AuditChain.Lookup` | backend/app/services/audit.py:188-199 | in id order, the anchor's row is found by id and the rows after it are a suffix |
| `AuditTampering.SameHashSamePast` | backend/app/services/audit.py:77-109 | two accepted chains that share one hash share position and everything before it |
| `AuditTampering.HashesAreDistinct` | backend/app/services/audit.py:223-277 | an accepted chain never repeats a hash |
| `AuditTampering.AnchoredPastIsUnchanged` | backend/app/services/audit.py:186-220 | a passing log that still carries an anchor's hash reads, up to it, as it did when the anchor was taken |
| `AuditTampering.RewriteChangesEveryLaterHash` | backend/app/services/audit.py:77-109 | a change at one row that passes must change every hash from there on |
| `AuditTampering.EditIsFound` | backend/app/services/audit.py:257-266 | the full form reports an edit of the content of row k at row k, as an edit |
| `AuditTampering.ReorderingKeysIsAccepted` | backend/app/services/audit.py:50-56 | reordering the keys of a stored object changes no verdict |
| `AuditTampering.EditAndRehashIsFound` | backend/app/services/audit.py:247-256 | the full form reports an edited and re-hashed row k at its successor, and passes when it has none |
| `AuditTampering.DeletionIsFound` | backend/app/services/audit.py:247-256 | the full form reports the deletion of row k at its successor, and passes when it has none |
| `AuditTampering.WalkSplits` | backend/app/services/audit.py:223-277 | a walk cut anywhere in its good part finds the same first bad row, for the same reason |
| `AuditTampering.FastAgreesWithFull` | backend/app/services/audit.py:186-220 | with the prefix as it should be, fast and full checks agree on verdict, row and reason, and count alike but for the prefix |
| `AuditTampering.FastPassesFullFails` | backend/app/services/audit.py:186-220 | whatever the prefix holds, a break only the full check sees is at or before the anchor |
| `AuditTampering.WindowMeans` | backend/app/services/audit.py:167-220 | a window passes exactly when its rows are sound among themselves; a full pass implies every window's, and what the full form adds is the first link |
| `AuditLedger.Store.LogEvent` | backend/app/services/audit.py:77-109 | appends one row and changes nothing else: it holds what the caller gave, names the last row's hash or the genesis constant, carries its own hash and a new id; the chain stays accepted |
| `AuditLedger.Store.VerifyChain` | backend/app/services/audit.py:147-220 | the two windows exclude each other; otherwise the verdict of the form asked for, with the anchor verified first and no anchor meaning the full form |
| `AuditLedger.Store.RecordFullVerification` | backend/app/services/audit.py:280-330 | the ledger after a recorded check, whether the log passed or not, and whether the anchor advanced; `AuditRecords.RecordedMeans` says what that is |
| `AuditLedger.EveryRunStaysGreen` | backend/app/services/audit.py:280-330 | in every run from empty tables, with entries committed even during a check, every recorded check is ok, anchors never move back, and the fast check passes |
| `AuditLedger.AdvancedMeansSomethingWasLogged` | backend/app/services/audit.py:323-330 | the first recorded check of a log with entries advances the anchor, and from then on it advances exactly when something was logged since the previous recorded check read the head |
| `AuditRecords.LogHoldsTheEntries` | backend/app/services/audit.py:77-109 | after any run, the contents of the log are the entries given, in order, those logged during a check included |
| `AuditRecords.RecordedMeans` | backend/app/services/audit.py:295-330 | on any non-empty log and whatever commits meanwhile: a walked log that passes makes the new row the latest anchor, with the hash of the head read first; one that does not leaves the anchor, does not advance, and the row says so, has no hash and names the first bad row, its position and the reason |
| `AuditRecords.NothingRecorded` | backend/app/services/audit.py:302-308 | on an empty log nothing is recorded and nothing advances |
| `AuditRecords.AnchorsPassed` | backend/app/services/audit.py:302-330 | over any run in which the log may be rewritten at will between steps, every anchor was recorded by a check of a log that passed, and carries the id and hash of its head |
| `AuditRecords.WindowReports` | backend/app/services/audit.py:200-220 | a window is never called full, counts its rows, and names the first row of it that is not sound, with the reason |
| `AuditRecords.NoAnchorMeansFull` | backend/app/services/audit.py:178-199 | with no check to start from, the since-anchor form gives the full form's answer and says full |
| `AuditForms.FastIsExact` | backend/app/services/audit.py:186-220 | of any log that passes the full form, the since-anchor form accepts exactly those in which everything up to the anchor's row is there and reads as it did; the others it answers with a mismatch |
| `AuditForms.EditByForms` | backend/app/services/audit.py:186-266 | the since-anchor form reports an edit exactly when it comes after the anchor's row, at that row and with its distance from the anchor |
| `AuditForms.RehashByForms` | backend/app/services/audit.py:186-256 | an edited and re-hashed row is a mismatch at the anchor's row, is reported at its successor after it, and is not seen before it or on the last row beyond it |
| `AuditForms.DeletionByForms` | backend/app/services/audit.py:186-256 | a deleted row is a mismatch if it is the anchor's, is reported at its successor after it, and is not seen before it or at the end beyond it |
| `AuditForms.ShorteningByForms` | backend/app/services/audit.py:167-220 | with any number of rows cut off the end, the full form and every window pass, and the since-anchor form passes exactly when the anchor's row is still there |
| `AuditForms.RecordingAcceptsTheLog` | backend/app/services/audit.py:302-330 | recording a check on any non-empty log that passes the full form anchors its head, after which both forms pass; on an empty log it records nothing |
| `AuditForms.RecordingSilencesShortening` | backend/app/services/audit.py:302-330 | so a mismatch caused by cut-off rows is gone after the next recorded check, whose anchor names an earlier row and is not an advance |
| `AuditProtocol.EveryInterleavingIsAccepted` | backend/app/services/audit.py:77-109 | for any interleaving of any number of transactions, the committed rows in id order are a chain the full walk accepts |
| `AuditProtocol.LogTellsTheStory` | backend/app/services/audit.py:77-109 | after any interleaving, the committed log reads as the entries of the transactions that committed, in commit order and each one's in call order; nothing else is in it and nothing is lost |
| `AuditProtocol.NextKeepsInv` | backend/app/services/audit.py:85-89 | every step keeps the lock holder's view a chain that extends the committed one |
| `AuditProtocol.StepsOnlyAppend` | backend/alembic/versions/e6b4c1af90d2_audit_chain_anchor.py:48-60 | no step changes or removes a committed row |
| `AuditProtocol.InsertQueuesTheEntry` | backend/app/services/audit.py:98-109 | a logged entry becomes the last of its transaction's own rows, the others unchanged |
| `AuditProtocol.LockIsNeeded` | backend/app/services/audit.py:85-87 | without the lock two transactions fork the chain, and the full walk then reports the second row |
| `Delivery.Outbox.EnqueueFor` | backend/app/services/delivery.py:65-99 | one fresh row for each configured channel the user asked for and has an address on, with the e-mail address for e-mail and the telephone number for SMS; no other row, earlier rows untouched |
| `Delivery.Outbox.Sweep` | backend/app/services/delivery.py:122-199 | the whole new table and the counters, for any correct answer to the candidate query, and for each row how it ends |
| `Delivery.BatchIsInOrder` | backend/app/services/delivery.py:135-143 | a due candidate is in the batch exactly when fewer than a batch of due candidates come before it in the answer, and then in the place their number gives |
| `Delivery.ProcessAllIsRowWise` | backend/app/services/delivery.py:146-197 | each selected row is processed once, from its state before the sweep; the others stay as they are |
| `Delivery.SweptRowEndsAs` | backend/app/services/delivery.py:146-197 | a selected row on a configured channel is abandoned exactly when its notification is gone, the refusal is permanent, or it comes on the last allowed attempt, and sent exactly when the channel took it; its error text, times and attempts are fixed too; every other row stays as it was |
| `DeliveryRuns.SweepFrame` | backend/app/services/delivery.py:135-151 | a changed row was unresolved, due and on a configured channel, and keeps its recipient, channel, notification and age |
| `DeliveryRuns.EarlyDueRowIsSelected` | backend/app/services/delivery.py:131-143 | a due row is selected when fewer than four batches of unresolved rows are no younger than it, and fewer than one batch of these are due |
| `DeliveryRuns.LateRowIsNotSelected` | backend/app/services/delivery.py:131-143 | a row is not selected when four batches of unresolved rows are older than it, or one batch of due ones |
| `DeliveryRuns.StarvedForEver` | backend/app/services/delivery.py:137-151 | over every run, a row behind a whole window of older rows on channels that stay unconfigured is never tried and never changes |
| `DeliveryRuns.CountersCountRows` | backend/app/services/delivery.py:145-197 | each counter is the number of selected rows that ended so |
| `DeliveryRuns.CountersAddUp` | backend/app/services/delivery.py:145-199 | together they are the number of selected rows with a configured channel |
| `DeliveryRuns.TallyIsTheFinalState` | backend/app/services/delivery.py:155-197 | the counter a row adds to is the state it is left in |
| `DeliveryRuns.CapHoldsUnlessCrashed` | backend/app/services/delivery.py:176-191 | on its last allowed attempt a row stays unresolved exactly when the channel failed in an unexpected way |
| `DeliveryRuns.WaitsAreGeometric` | backend/app/services/delivery.py:107-119 | the delays add up to a geometric series |
| `DeliveryRuns.BackoffOverRuns` | backend/app/services/delivery.py:107-119 | in every run, attempt n (from 0) comes at least base * (2^n - 1) minutes after the first, whatever the clocks do |
| `DeliveryRuns.ResolvedIsFinal` | backend/app/services/delivery.py:137-139 | a sent or abandoned row is never changed or tried again |
| `DeliveryRuns.PermanentRefusalIsFinal` | backend/app/services/delivery.py:173-178 | over every run, a row whose attempt meets a permanent refusal is abandoned by that sweep, never changes again, and that attempt was its last |
| `DeliveryProgress.SweepLowersMeasure` | backend/app/services/delivery.py:122-199 | for every table, rows over the cap included: with all unresolved rows due and on channels that fail only as announced, a sweep lowers the attempts left by at least min(batch, unresolved) |
| `DeliveryProgress.GoodRunsResolveEverything` | backend/app/services/delivery.py:122-199 | so from every table, as many such sweeps as attempts left leave every row sent or abandoned |
| `DeliveryProgress.AbandonedAfterAllTries` | backend/app/services/delivery.py:160-187 | while refusals are transient, a row is abandoned only after exactly the allowed number of attempts, over every run |
| `DeliveryProgress.NoCapWhenCrashing` | backend/app/services/delivery.py:188-192 | for every n a row whose channel fails unexpectedly can have been tried n times and still wait, each time as soon as the backoff allows |
| `DeliveryProgress.BackoffIsTight` | backend/app/services/delivery.py:107-119 | the bound on the n-th attempt is reached: the delays are no longer than that |
| `EvaluationDb.Scorer` | backend/app/models/chain.py:72-93 | the first scorer is the first filled seat counted from the bottom of the chain, and there always is one |
| `EvaluationDb.SingleDeciderMeans` | backend/app/models/evaluation.py:293-334 | for every record, one person scores and closes exactly when the CEO also sits on the lowest filled seat, or scores a chain with no lower seat that HR does not review or that the CEO's account claimed; on the deputy's seat only in rows older than the checks |
| `EvaluationDb.LinkGuardIsExact` | backend/alembic/versions/c3e8b1a76d94_forbid_self_evaluation.py:59-84 | the user-side trigger refuses exactly the links that would let someone judge themselves |
| `EvaluationDb.RecordGuardIsExact` | backend/app/models/evaluation.py:235-290 | the database refuses a record exactly when its chain breaks the checks or the table with it would be invalid |
| `EvaluationDb.AccessGuardIsExact` | backend/app/models/evaluation_access.py:34-61 | the database refuses an access row exactly when its chain breaks the checks, names someone missing, or would let someone judge themselves |
| `EvaluationDb.UserGuardIsExact` | backend/alembic/versions/c3e8b1a76d94_forbid_self_evaluation.py:59-84 | a new account is refused exactly when it exists already or the tables with it would not be valid |
| `EvaluationDb.DeleteGuardsAreExact` | backend/app/models/evaluation_access.py:34-61 | a person or account is refused deletion exactly when a row would be left referring to it |
| `EvaluationDb.StatementWrites` | backend/app/models/evaluation.py:235-290 | an accepted statement leaves the one row it names as it asks and every other row of every table as it was |
| `EvaluationDb.ExecuteKeepsValid` | backend/alembic/versions/c3e8b1a76d94_forbid_self_evaluation.py:30-105 | every accepted statement keeps references, separation, one open record a person and unique codes |
| `EvaluationDb.EveryRunIsSeparated` | backend/alembic/versions/c3e8b1a76d94_forbid_self_evaluation.py:30-105 | after any serial run, a record's scorer is never linked to its subject, and nobody has two open records |
| `EvaluationDb.UncoordinatedHalves` | backend/alembic/versions/c3e8b1a76d94_forbid_self_evaluation.py:59-84 | a link and an access row checked against the same state break separation exactly when they meet |
| `EvaluationDb.UncoordinatedRecord` | backend/alembic/versions/c3e8b1a76d94_forbid_self_evaluation.py:59-84 | so do a link and a record, inserted or updated |
| `EvaluationDb.SeparationCanBreak` | backend/alembic/versions/c3e8b1a76d94_forbid_self_evaluation.py:30-84 | one person, one account and two statements: each is accepted alone, either refuses the other once it is seen, and both together break separation |
| `BulkEvaluation.FindOpen` | backend/app/services/bulk_evaluation.py:151-158 | a record found is the person's and open; if none is found there is none |
| `BulkEvaluation.PlanMeans` | backend/app/services/bulk_evaluation.py:169-232 | when each outcome is previewed, in terms of the tables, and the record, code, assignee and path that come with it |
| `BulkEvaluation.CodesDiffer` | backend/app/services/evaluation.py:140-142 | codes from different sequence values differ, of whatever length |
| `BulkEvaluation.CodeSays` | backend/app/services/evaluation.py:140-142 | a code is the fixed prefix and the number in at least four digits, no more than it needs, and reads back as that number |
| `BulkEvaluation.Session.CreateOne` | backend/app/services/bulk_evaluation.py:262-296 | one insertion under a savepoint: the row, a draft with no HR user, the HR review skipped for HR's own people only, and the run's stamps; its plan on success, only a conflict mark on refusal |
| `BulkEvaluation.Session.Execute` | backend/app/services/bulk_evaluation.py:259-298 | the loop over all planned people, with other transactions between its steps; what was inserted, refused and reported is as `ExecuteAmongOthers` says |
| `BulkEvaluation.Session.Summarise` | backend/app/services/bulk_evaluation.py:301-306 | one counter for each outcome that occurs, with the number of people who met it |
| `BulkEvaluation.ExecuteAmongOthers` | backend/app/services/bulk_evaluation.py:259-298 | with anything committed in between that keys and unique indexes allow, nobody ever has two open records, every row tried is a draft with the seats, HR flag and stamps due, conflicts are exactly the refused rows, and every other planned row is there at the end |
| `BulkUndisturbed.RejectedOnlyByChecks` | backend/app/services/bulk_evaluation.py:283-296 | undisturbed, the database refuses a planned row exactly when the access row breaks its own checks |
| `BulkUndisturbed.RunAloneKeepsPlan` | backend/app/services/bulk_evaluation.py:135-298 | undisturbed, a run adds one record for each person whose plan and checks allow it, a draft with no HR user, the planned seats, the HR flag and stamps due and a code from the sequence, leaves every other row alone, and each plan names its record |
| `BulkUndisturbed.ExecuteMatchesPlan` | backend/app/services/bulk_evaluation.py:138-139 | the outcome is the previewed one exactly when the checks hold, and each new record is scored by the assignee the preview named |
| `BulkUndisturbed.PlanForeseesDatabase` | backend/app/services/bulk_evaluation.py:169-232 | for an active person with a live, checked chain the preview promises a record exactly when the database would take it, and names an open record exactly when there is one |
| `BulkUndisturbed.SecondRunCreatesNothing` | backend/app/services/bulk_evaluation.py:178-186 | running again over the same cohort creates nothing and points at the records made |
| `Documents.EveryInterleavingAgrees` | backend/app/services/documents.py:29-87 | in every interleaving, one document a record, and every committed caller that returned a document returned that row with its hash |
| `Documents.StepKeepsInv` | backend/app/services/documents.py:79-87 | every step of every transaction keeps the table and what each transaction knows of it |
| `Documents.CommittedRowsAreForever` | backend/app/services/documents.py:66-70 | a committed document's bytes and hash never change |
| `Documents.RereadFindsTheWinner` | backend/app/services/documents.py:82-86 | the read after a refused insert never comes back empty |
| `Documents.BytesWereRendered` | backend/app/services/documents.py:29-87 | in every interleaving, a row's bytes are ones that a transaction rendered for that record after finding nothing archived: its owner, or for a committed row one that committed |
| `Documents.Archive.Get` | backend/app/services/documents.py:21-26 | the document of the record, or none if there is none |
| `Documents.Archive.ArchiveFinalPdf` | backend/app/services/documents.py:29-87 | a document that exists is returned with nothing added; at most one is added; nothing is returned only when none exists and none can be rendered |
| `Decimal.NatRoundTrip` | backend/app/services/integrations.py:39-42 | decimal text reads back as the number, of any size |
| `Url.QuoteRoundTrip` | tools/launcher/database.py:49-55 | percent-decoding undoes percent-encoding (section 2.1 of RFC 3986) on all byte strings, and the text holds no separator |
| `Endpoint.ParsePrinted` | tools/launcher/database.py:48-84 | what the launcher reads from any printed endpoint: its defaults for what is empty, the host in lower case, nothing for a port out of range |
| `Endpoint.SchemeDecides` | tools/launcher/database.py:58-84 | an address is taken as PostgreSQL's exactly when its scheme begins with postgres and its port is in range |
| `Endpoint.NoPortMeansUsual` | backend/scripts/ensure_database.py:58-74 | an address without a port means port 5432 to both readers of URLs, and the rest as in any address |
| `Endpoint.ParseRoundTrip` | tools/launcher/database.py:48-84 | the endpoint comes back exactly when user, host and name are not empty, the host is lower case and the port is in 1..65535, whatever bytes user, password and name hold |
| `Endpoint.TargetRoundTrip` | backend/scripts/ensure_database.py:58-74 | the second reader gives back the endpoint under exactly the same conditions |
| `Endpoint.ReadersOfUrlAgree` | backend/scripts/ensure_database.py:58-74 | the two readers agree on a printed endpoint exactly when user, host and name are not empty; on a port out of range neither gives an address |
| `EnvFile.WrittenSplits` | tools/launcher/database.py:115-124 | the lines written are the lines the next reader sees |
| `EnvFile.WriteMeans` | tools/launcher/database.py:107-124 | after a write the key reads as the stripped value, other keys as before, other lines are untouched, and the same write again changes nothing |
| `EnvFile.ReadableKeys` | tools/launcher/database.py:94-104 | a key can be stored exactly when it is stripped, on one line, without = and no comment |
| `EnvFile.FileIsAMap` | tools/launcher/database.py:94-124 | over any run of writes each key reads as the last value written, and as at the start if none was |
| `EnvFile.ApplyThenCurrent` | tools/launcher/database.py:127-132 | whatever the file held, the applied endpoint is the current one exactly when it survives the URL |
| `EnvFile.EnvFile.ReadSetting` | tools/launcher/database.py:94-104 | the scan returns the value of the first line that sets the key, or nothing |
| `EnvFile.EnvFile.WriteSetting` | tools/launcher/database.py:107-124 | the edited lines are written back; the key then reads as the value and no other key changes |
| `EnvFile.EnvFile.CurrentEndpoint` | tools/launcher/database.py:127-128 | the stored address as read, or the defaults if there is none |
| `EnvFile.EnvFile.ApplyEndpoint` | tools/launcher/database.py:131-132 | stores the address; the current endpoint is then the applied one exactly when it survives the URL |
| `Steps.HostPortRoundTrip` | tools/launcher/steps.py:252-273 | the third reader finds host and port of a printed endpoint exactly when there is a host and the port is not negative |
| `Steps.NoPortMeansUsualHere` | tools/launcher/steps.py:252-273 | and to the third reader |
| `Steps.SearchTakes` | tools/launcher/steps.py:251 | the search takes the value on the first line that sets the key, or, when a line above it holds the bare key and later lines complete it, the word after their = |
| `Steps.AppliedIsFound` | tools/launcher/steps.py:255-273 | in any settings file, what this reader says of an applied endpoint: its host and port exactly when no line above it is completed by later ones, or the completed one gives the same |
| `Steps.ReadersAgree` | tools/launcher/steps.py:255-273 | the first two readers agree on an applied endpoint, and the third joins them under exactly that condition |
| `Steps.CompletedLineHides` | tools/launcher/steps.py:251 | a file in which this reader answers with its fallback, localhost:5432, whatever endpoint is applied, though the launcher's own reader finds it |
| `Numerals.IntRoundTrip` | backend/app/services/integrations.py:30-42 | every integer survives being stored as text, and the text is plain decimal |
| `Numerals.ParseIntMeans` | backend/app/services/integrations.py:30-33 | a text is read as n exactly when it is an integer literal for n: an optional sign and digits, single underscores between them, in white space |
| `Integrations.ValidatedMeans` | backend/app/services/integrations.py:80-99 | a value is accepted exactly when the field takes it: a flag or its name in text, anything in a text field, an integer or text for one within both bounds; what it is kept as, and the reason of each refusal, are fixed |
| `Integrations.EffectiveMeans` | backend/app/services/integrations.py:30-63 | a stored text gives the text, the flag (on exactly for the word true) or the integer it denotes; one that denotes none, or no text, gives the default |
| `Integrations.SerialiseRoundTrip` | backend/app/services/integrations.py:30-99 | reading undoes writing on a validated value exactly when it has its field's kind; what is read is within the bounds |
| `Integrations.SaveMeans` | backend/app/services/integrations.py:102-121 | a save goes through exactly when each entry for an editable key is one its field takes; it then holds what was last sent for each such key, as the field means it, and nothing of any other key |
| `Integrations.TakesEffect` | backend/app/api/routers/administration.py:373-385 | what was last sent is shown from then on; it is in effect at once exactly when the key was stored before or the value is the default, and after the next refresh in any case |
| `Integrations.RunKeepsBounds` | backend/app/services/integrations.py:66-121 | over any run of requests and refreshes bounded settings stay in bounds and settings outside the allowlist never move |
| `Integrations.LastSavedWins` | backend/app/services/integrations.py:53-69 | after any run and a refresh each setting is what was last sent for it in a request that went through, as its field means it; else what the table gave at first, else the default |
| `Integrations.IntegrationSettings.EffectiveValues` | backend/app/services/integrations.py:53-63 | the stored value of each key where it can be read, else the default |
| `Integrations.IntegrationSettings.Refresh` | backend/app/services/integrations.py:66-69 | lays the effective values over the running settings and changes nothing else |
| `Integrations.IntegrationSettings.Save` | backend/app/services/integrations.py:102-121 | raises exactly when some editable entry is not one its field takes; otherwise each editable key holds what was sent, as its field means it, and other keys are untouched |
| `Integrations.IntegrationSettings.Update` | backend/app/api/routers/administration.py:421-439 | a request whose entries are all sound saves what was sent, refreshes and commits; any other leaves everything as it was |
| `ModuleStates.SnapshotIsFresh` | backend/app/services/authorization.py:78-108 | without rollback, in every state with no write pending the snapshot answers as a fresh read would |
| `ModuleStates.NeverSetKeepsItsDefault` | backend/app/services/authorization.py:78-133 | a switch a run never sets answers, in every state of it, as its row did at the start, or as its module's own default when it has none |
| `ModuleStates.HeldSnapshot` | backend/app/services/authorization.py:90-108 | in every run a snapshot is held exactly when some read took it and no flush has dropped it, and it is what that read saw |
| `ModuleStates.FreshExactlyWhen` | backend/app/services/authorization.py:78-133 | in every state of every run, rollbacks included, where no write is pending: answers are as a fresh read would give exactly when no snapshot is held, or the read that took it saw every module as the table has it now |
| `ModuleStates.RollbackIsFreshExactlyWhen` | backend/app/services/authorization.py:99-108 | after any run and a rollback, exactly when what that read saw agrees with the committed rows |
| `ModuleStates.EndOfTransaction` | backend/app/services/authorization.py:99-108 | a commit always leaves fresh answers, and a rollback does unless a read follows the first write of the transaction and no flush of a pending write follows that read |
| `ModuleStates.PendingReadLeavesStale` | backend/app/services/authorization.py:90-97 | write, read and roll back: stale exactly when a stored switch was changed |
| `ModuleStates.FlushedReadLeavesStale` | backend/app/services/authorization.py:99-108 | write, flush, read and roll back: stale exactly when the undone value was a change |
| `ModuleStates.ModuleSession.StoredStates` | backend/app/services/authorization.py:78-97 | takes the snapshot once and answers from it |
| `ModuleStates.ModuleSession.StoredModuleState` | backend/app/services/authorization.py:124-133 | an unknown key is an error; otherwise the stored switch, or the module's own default where there is none, fresh when no write is pending |
| `ModuleStates.SessionIsATable` | backend/app/api/routers/administration.py:306-326 | over any run, rollbacks included, pending changes and additions once flushed are a plain table of what was last written |
| `ModuleStates.ModuleSession.FlushSession` | backend/app/services/authorization.py:99-108 | a flush that writes a switch drops the snapshot |

## Left out

- SHA-256 is not computed. That no two texts collide, and that none hashes to the genesis constant, is a hypothesis of the lemmas that need it.
- Text is a sequence of characters. UTF-8 encoding, lone surrogates and Unicode normalisation are not modelled; in URLs one character is one byte. Digits are the ASCII ones, where `int` and `\d` accept more.
- JsonReader.DumpsReadsBack: the reader takes no white space between tokens, no fractions or exponents and no surrogate escapes; the program's encoder writes none of them.
- Floats in audit values and in settings are not modelled, nor is the limit Python puts on the digits of an integer it converts.
- The id and the creation time of an audit row are not hashed by the program, so nothing is proved about them beyond the order of ids. Gaps in ids are allowed.
- AuditTampering.DeletionIsFound: speaks of the full form, which does not see the last row go; `AuditForms` says what the since-anchor form sees. What stands against cut-off rows otherwise is the database's append-only triggers.
- AuditLedger.EveryRunStaysGreen: holds for runs that only append, as the append-only triggers enforce; on a shortened log a full check records a lower anchor.
- The advisory lock is modelled as granted or refused at once; waiting and fairness are not.
- Outbox rows are values in a sequence, known by their place; the objects a session shares between callers are not modelled. Rows created at the same instant may come in any order.
- DeliveryProgress.GoodRunsResolveEverything: assumes that every unresolved row is due and has a channel; rows that are not due or whose channel is gone still occupy the candidate window, and `StarvedForEver` shows what that can do to the others.
- DeliveryProgress.NoCapWhenCrashing: times are unbounded integers. Python's dates end with the year 9999, which a doubling delay passes after some thirty attempts (if the base is not zero); the sweep raises then. The same holds of `BackoffIsTight`.
- The texts of messages and subjects, logging and metrics are left out; the two error texts the sweep writes itself are in English here.
- Which status changes the workflow allows, scoring and recommendations are not part of this model; records may be updated to any state the database accepts. Columns no guard reads are omitted, the bonus checks among them.
- EvaluationDb.EveryRunIsSeparated: holds for statements one after the other; `UncoordinatedHalves` and `UncoordinatedRecord` give the exact exceptions for two transactions that do not see each other. That two statements on one account or one row are serialised by their row locks is taken for granted.
- Deleting a referenced row is refused; cascades are not modelled.
- Names, labels and the order of a plan are omitted, and a cohort is any sequence of its people. Other transactions act once before each insertion, and the access rows are the ones read at the start.
- PDF rendering is any result or none. The detached wrapper that opens its own session for archiving is covered as one more transaction; its logging is left out.
- IPv6 hosts in brackets, and the checks `urlsplit` makes on them and on compatibility characters, are not modelled: an authority with a bracket counts as an error.
- Endpoint.ParseRoundTrip: states nothing about hosts with characters other than letters, digits, dots, hyphens and underscores; a host with a colon or a slash in it does not come back.
- The settings file is the text Python holds after reading, with line endings already turned into `\n`, and is written in one step.
- Integrations.SaveMeans: for any table of fields; the actual list of keys, kinds and bounds is a parameter. Two sessions saving at once are not modelled.
- Writing the same new module switch twice in one session without a flush adds a second row, which the database then refuses; in the model the later value replaces the earlier.
- HTTP routes, permissions, the desktop window, process supervision, backups, and migrations other than the ones cited are not part of this model: they are plumbing or one-off changes.
