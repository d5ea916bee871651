# Verified models of the workspace's protocols, lexers and printers

This project models, in Dafny, the parts of the workspace whose correctness rests on more than one
function: state machines fed by arbitrary interleavings, hand-written character machines, and
printers that some other component must read back. One module stands for one component.

| component | modules |
|---|---|
| Fault receipt probe: from browser events in any order, was the one injected fault consumed and recovered from? | `FaultReceiptProbe`, `ProbeInvariant`, `ProbeRuns`, `ProbeTheorems`, `ProbeTraces`, `ProbeInjection`, `ProbeEvents`, `ProbeRecovery`, `ProbeExample`, `ProbeObject` |
| D1 sync: JSONC passes, SQL splitter, reset and import scripts, drop order | `JsoncText`, `JsoncCommas`, `SqlLexer`, `SqlTokens`, `SqlScripts`, `DropOrder` |
| Locale compile: the mkdir mutex and the write-if-changed sync | `LocaleLock`, `DirectorySync` |
| Platform role changes under the advisory lock | `RoleChange` |
| Stable submission attempts and canonical payloads | `StableSubmission`, `CanonicalJson`, `Json` |
| Server-sent-events responses | `SseStream`, `SseDelivery` |
| Audit export, task routes, percent-encoding | `AuditCsv`, `TaskRoute`, `PercentEncoding` |
| Bounded body readers, JSON complexity, import closure | `BodyReader`, `JsonComplexity`, `ImportClosure` |
| Shared vocabulary | `Options`, `Strings`, `Quoting`, `ByteStrings`, `Decimals`, `Sorting` |

Code that updates fields or loops is modelled by classes and methods, each proved against a
specification function; the theorems are about those functions. Concurrency is modelled by steps:
a step is what happens between two file-system calls, two database statements or two awaits, and a
theorem about runs holds for every sequence of enabled steps. Clocks are numbers that only grow.

`dafny verify dfyconfig.toml` checks everything.

## What turned out not to hold

Each of these has a lemma with a concrete input and a lemma that says exactly when the property holds.

- *Only the first target request begun after fault success is the recovery request*
  (`mkfast-template-main/scripts/e2e/agent-fault-receipt.test.ts:456`): in gap-close mode any
  response or failure reconciles and wipes the links of a normally finished fault, so the recovery
  request stops being one when its own response arrives (`ProbeExample.ResponseErasesRecovery`); exact
  condition in `ProbeRecovery.FirstSinceSuccessIsRecoveryIff`.
- *The comment on the lock says that an atomic rename lets only one waiter win*
  (`mkfast-template-main/scripts/locale/paraglide-sync.ts:279`): the verdict and the rename are
  separate steps, and a second waiter can rename away the winner's own directory
  (`LocaleLock.StaleVerdictLetsTwoIn`); exact conditions in
  `LocaleLock.RobberyAdmitsTwo` for a step and `LocaleLock.OwnedThroughoutIffNeverRobs` for a run.
- *An import script can be split back into its statements*: not for a dump that ends inside a
  quotation (`SqlScripts.UnclosedQuoteSwallowsTheScript`, `SqlScripts.ImportScriptSplitsBackIff`).
- *Removing trailing commas is idempotent*: not for `,,]` (`JsoncCommas.SecondPassFindsMore`,
  `JsoncCommas.CommasIdempotentIff`).
- *Key order never matters for a fingerprint*: not for an object that holds both spellings of an accented
  letter, which a locale-aware comparison ties (`CanonicalJson.AccentShowsKeyOrder`); exact condition on
  the payload in `CanonicalJson.KeyOrderIsDecidedIffNoTies`.

## Model

| member | source | states |
|---|---|---|
| `ProbeEvents.ReceiptObservedIff` | mkfast-template-main/scripts/e2e/agent-fault-receipt.ts:104-110 | After every run, `receiptObserved` holds if and only if, read off the events alone, the first request begun on the Thread bound first was answered with 200 and the exact receipt (named for each fault) and either finished and never failed, or (gap-close only) was cut off with `net::ERR_ABORTED` and never finished while a later request on the same Thread was answered with 200 and never failed, at an offset whose text is a larger numeral: longer, or larger at the first digit that differs. |
| `ProbeEvents.AdvancesIff` | mkfast-template-main/scripts/e2e/agent-fault-receipt.ts:386-395 | Comparing offsets as numbers of any size is comparing their texts, for readable numerals without leading zeros; anything else never advances. |
| `ProbeEvents.RequestOfRecord` | mkfast-template-main/scripts/e2e/agent-fault-receipt.ts:54-69 | After every run, each record keeps the trimmed Thread id of its registering URL, and its offset exactly if that is a readable numeral. |
| `ProbeTraces.ReceiptObservedIffFaultConsumed` | mkfast-template-main/scripts/e2e/agent-fault-receipt.ts:271-293 | The step before it: the same equivalence with registration and injection still read from the state at the begin. |
| `ProbeTraces.EveryRecordIsTold` | mkfast-template-main/scripts/e2e/agent-fault-receipt.ts:191-239 | After every run, each record names the event that registered it, and what it says about responses, finishing and failing is exactly what happened after that event. |
| `ProbeTheorems.ReceiptObservedIffConsumed` | mkfast-template-main/scripts/e2e/agent-fault-receipt.ts:271-293 | The same statement over the records: the three counts of `receiptObserved` agree on 1 exactly when some injected record carries the full evidence, with no mention of sequence numbers or links. |
| `ProbeTheorems.InjectsAtMostOnce` | mkfast-template-main/scripts/e2e/agent-fault-receipt.ts:150-155 | No run ever injects the fault into two requests. |
| `ProbeInjection.InjectedIffFirstOnTarget` | mkfast-template-main/scripts/e2e/agent-fault-receipt.ts:150-155 | Read off the events alone: a request gets the fault if and only if it is the first one registered on the Thread that was bound first, begun after that binding. |
| `ProbeInjection.RegistersIffFirstOfKey` | mkfast-template-main/scripts/e2e/agent-fault-receipt.ts:135-145 | A begin registers its request if and only if its URL is proper and no earlier proper begin used the same request. |
| `ProbeInjection.TargetIsTheFirstBound` | mkfast-template-main/scripts/e2e/agent-fault-receipt.ts:112-124 | After every run the target is the trimmed Thread id of the first valid binding, and unset if there was none. |
| `ProbeInjection.AnswerOfBegin` | mkfast-template-main/scripts/e2e/agent-fault-receipt.ts:135-189 | A begin is rejected unless it is the first proper one with its request, and its answer carries the fault exactly when it is the first on the target. |
| `ProbeInjection.InFlightIff` | mkfast-template-main/scripts/e2e/agent-fault-receipt.ts:375-383 | After every run, a request is in flight if and only if it carries the fault and the fault has never been seen to end, by failing or by finishing with its headers settled. |
| `ProbeRecovery.RecoveryIff` | mkfast-template-main/scripts/e2e/agent-fault-receipt.ts:241-249 | After every run and for every request, `isRecoveryRequest` holds if and only if the events make it so: after a cut-off, the first reconnection; after a normal end, the first request begun on the target Thread while the fault stood successful, provided the fault has stood ever since and (gap-close) no response or failure of a registered request has come in since. |
| `ProbeTheorems.RecoveryIsUniqueAndLater` | mkfast-template-main/scripts/e2e/agent-fault-receipt.ts:295-334 | At most one request is the recovery request; it is not the injected one, is on the bound Thread, and began after the fault's failure (aborted) or successful terminal (ordinary). |
| `ProbeRecovery.FirstSinceSuccessIsRecoveryIff` | mkfast-template-main/scripts/e2e/agent-fault-receipt.ts:156-166 | The tests' promise: while a normally ended fault stands, the first target request begun since its success is the recovery request if and only if (gap-close) no response or failure of a registered request has come in since that request began. |
| `ProbeExample.ResponseErasesRecovery` | mkfast-template-main/scripts/e2e/agent-fault-receipt.ts:295-302 | A concrete gap-close run in which that promise fails: the recovery request's own 200 response wipes its link although the fault had finished normally. |
| `ProbeRuns.RunKeepsInv` | mkfast-template-main/scripts/e2e/agent-fault-receipt.ts:135-239 | The inductive invariant (registration order, dated failures, terminal sequences, exact links) holds after every run. |
| `ProbeObject.AgentFaultReceiptProbe.BindTargetThread` | mkfast-template-main/scripts/e2e/agent-fault-receipt.ts:112-124 | Binds the trimmed Thread id once; a blank, over-long or different later id is refused and changes nothing. |
| `ProbeObject.AgentFaultReceiptProbe.BeginRequest` | mkfast-template-main/scripts/e2e/agent-fault-receipt.ts:135-189 | The new state and the answer (rejected, registered, injected) are those of the specification. |
| `ProbeObject.AgentFaultReceiptProbe.RecordFailure` | mkfast-template-main/scripts/e2e/agent-fault-receipt.ts:191-202 | New state equals the specified one: dated failure, terminal sequence, reconcile, release. |
| `ProbeObject.AgentFaultReceiptProbe.RecordFinished` | mkfast-template-main/scripts/e2e/agent-fault-receipt.ts:204-211 | New state equals the specified one; no reconcile pass runs. |
| `ProbeObject.AgentFaultReceiptProbe.RecordResponseStarted` | mkfast-template-main/scripts/e2e/agent-fault-receipt.ts:213-221 | New state equals the specified one; nothing is released. |
| `ProbeObject.AgentFaultReceiptProbe.RecordResponse` | mkfast-template-main/scripts/e2e/agent-fault-receipt.ts:223-239 | New state equals the specified one, including the receipt category. |
| `ProbeObject.AgentFaultReceiptProbe.SyncSuccessfulTerminalSequence` | mkfast-template-main/scripts/e2e/agent-fault-receipt.ts:345-351 | A terminal sequence is dropped, kept or newly drawn exactly as specified. |
| `ProbeObject.AgentFaultReceiptProbe.ReconcileGapCloseRecoveries` | mkfast-template-main/scripts/e2e/agent-fault-receipt.ts:295-334 | The clearing loop and the relinking refine the specified reconcile pass. |
| `ProbeObject.AgentFaultReceiptProbe.ReleaseIfTerminal` | mkfast-template-main/scripts/e2e/agent-fault-receipt.ts:375-383 | Only the in-flight injected request is released, and only once it is terminal. |
| `ProbeObject.AgentFaultReceiptProbe.ReceiptObserved` | mkfast-template-main/scripts/e2e/agent-fault-receipt.ts:104-110 | The counting loops compute the specified verdict. |
| `ProbeObject.AgentFaultReceiptProbe.IsRecoveryRequest` | mkfast-template-main/scripts/e2e/agent-fault-receipt.ts:241-249 | The lookup and the single terminal sequence give the specified answer. |
| `ProbeObject.Watch` | mkfast-template-main/scripts/e2e/agent-fault-receipt.ts:71-110 | Feeding any run of events to a new probe object, its final `receiptObserved` is true if and only if the events consumed the fault in the sense of the first row. |
| `DropOrder.OrderTablesForDrop` | mkfast-template-main/scripts/sync-d1-remote-to-local.ts:549-600 | For any reference graph, cyclic or not: terminates, emits each table name once and nothing else (all tables, as a permutation, when names are distinct), and puts a referring table before the table it refers to unless the latter leads back to it, that is, unless they lie on a common cycle. |
| `DropOrder.TableOrder.Visit` | mkfast-template-main/scripts/sync-d1-remote-to-local.ts:571-594 | One depth-first visit keeps the partial order valid, only appends, restores the `visiting` set and leaves the table visited or on the current path. |
| `DropOrder.BuildDependents` | mkfast-template-main/scripts/sync-d1-remote-to-local.ts:550-565 | The table of dependents holds `a` under `b` if and only if `a` refers to the listed table `b`. |
| `DropOrder.OrderObjectsForDrop` | mkfast-template-main/scripts/sync-d1-remote-to-local.ts:528-543 | Views, triggers, indexes and tables come in that order, nothing is lost or invented when table names are distinct, the first three kinds are sorted by name, and the tables are in a drop order. |
| `SqlLexer.SplitSqlStatements` | mkfast-template-main/scripts/sync-d1-remote-to-local.ts:617-667 | The look-ahead loop, which swallows doubled quotes, computes the one-character-at-a-time splitter on every text. |
| `SqlLexer.PiecesAreLocal` | mkfast-template-main/scripts/sync-d1-remote-to-local.ts:617-667 | Every cut piece is a piece when read on its own and the rest is cut nowhere, so splitting does not depend on what came before. |
| `SqlTokens.SplitGivesTheStatements` | mkfast-template-main/scripts/sync-d1-remote-to-local.ts:617-667 | For any statements made of bare text, quotations in `'`, `"` or backticks with doubled quotes, and bracketed names: splitting gives exactly the statements, trimmed, whatever their quotations contain; a non-blank rest becomes a last statement. |
| `SqlScripts.SplitUndoesJoin` | mkfast-template-main/scripts/sync-d1-remote-to-local.ts:617-667 | Splitting a list of statements joined by line breaks gives the list back, with or without a final line break. |
| `SqlScripts.ResetScriptSplitsBack` | mkfast-template-main/scripts/sync-d1-remote-to-local.ts:513-526 | For all object names, quotes, semicolons and brackets included, splitting the reset script gives exactly its statements in order. |
| `SqlScripts.DropReadsBack` | mkfast-template-main/scripts/sync-d1-remote-to-local.ts:518-522 | Whatever its name contains, a drop statement reads back as the kind and the name of its object. |
| `SqlScripts.WriteResetSql` | mkfast-template-main/scripts/sync-d1-remote-to-local.ts:513-526 | Splitting the written script gives foreign keys off, one drop statement for each object in an order in which they can be dropped, and foreign keys on. |
| `SqlScripts.BuildLocalImportSql` | mkfast-template-main/scripts/sync-d1-remote-to-local.ts:669-701 | Between `PRAGMA foreign_keys = OFF;` and `ON;` the script holds each statement of the dump exactly once: those whose collapsed upper-cased text starts with `PRAGMA `, then `CREATE TABLE `, then the rest, then `INSERT INTO `, then any other `CREATE `, each group in the order of the dump. |
| `SqlScripts.CollapseRuns` | mkfast-template-main/scripts/sync-d1-remote-to-local.ts:677-677 | Collapsing makes each maximal run of white space one space and changes nothing else. |
| `SqlScripts.ImportKeepsEveryStatement` | mkfast-template-main/scripts/sync-d1-remote-to-local.ts:692-700 | As multisets, the script is the statements plus the two pragmas: nothing lost, doubled or invented. |
| `SqlScripts.ImportKeepsClassOrder` | mkfast-template-main/scripts/sync-d1-remote-to-local.ts:676-690 | Within each class the statements keep their order in the dump. |
| `SqlScripts.ImportScriptSplitsBackIff` | mkfast-template-main/scripts/sync-d1-remote-to-local.ts:669-701 | For every dump, splitting the import script gives back exactly the statements written to it if and only if the dump does not end inside a quotation. |
| `SqlScripts.UnclosedQuoteSwallowsTheScript` | mkfast-template-main/scripts/sync-d1-remote-to-local.ts:661-664 | A dump cut off after an opening quote: the script does not split back. |
| `JsoncText.StripJsonComments` | mkfast-template-main/scripts/sync-d1-remote-to-local.ts:274-330 | The index loop computes the token-by-token stripping on every text. |
| `JsoncText.StripRemovesExactlyComments` | mkfast-template-main/scripts/sync-d1-remote-to-local.ts:274-330 | Any text made of string literals, quote-free slash-free text and comments loses exactly the comments, except for their line breaks. |
| `JsoncText.StripIsIdempotent` | mkfast-template-main/scripts/sync-d1-remote-to-local.ts:274-330 | On every input, stripping twice is stripping once. |
| `JsoncText.StripKeepsLineBreaks` | mkfast-template-main/scripts/sync-d1-remote-to-local.ts:303-324 | On every input the number of line breaks is kept, plus one if a line comment runs to the end of the input. |
| `JsoncText.StripFinalLineComment` | mkfast-template-main/scripts/sync-d1-remote-to-local.ts:303-309 | A line comment without its line break leaves a line break. |
| `JsoncCommas.StripTrailingCommas` | mkfast-template-main/scripts/sync-d1-remote-to-local.ts:332-371 | The index loop computes the specified pass on every text. |
| `JsoncCommas.FindNextNonWhitespace` | mkfast-template-main/scripts/sync-d1-remote-to-local.ts:373-382 | Returns the first character that is not white space, or nothing. |
| `JsoncCommas.CommasIdempotentIff` | mkfast-template-main/scripts/sync-d1-remote-to-local.ts:332-371 | A second pass changes nothing if and only if no kept comma stands directly before a removed one. |
| `JsoncCommas.SecondPassFindsMore` | mkfast-template-main/scripts/sync-d1-remote-to-local.ts:360-365 | Two commas before a bracket: each pass removes one. |
| `JsoncCommas.LiteralsSurvive` | mkfast-template-main/scripts/sync-d1-remote-to-local.ts:340-352 | Commas and brackets inside a string literal are untouched. |
| `JsoncCommas.CommasRemovesExactlyTrailing` | mkfast-template-main/scripts/sync-d1-remote-to-local.ts:332-371 | In any text of string literals and bare text, the pass removes exactly the commas outside literals that only white space parts from `}` or `]`. |
| `LocaleLock.MutualExclusion` | mkfast-template-main/scripts/locale/paraglide-sync.ts:298-339 | In every interleaving of file-system steps, clock ticks and crashes in which each steal's verdict is still true at its rename and no live holder exceeds `staleMs`, at most one live call is between its mkdir and the end of its release. |
| `LocaleLock.OnlyRobberyBreaksOwnership` | mkfast-template-main/scripts/locale/paraglide-sync.ts:278-287 | Of all steps, ownership of the directory is broken if and only if the step renames away a directory whose live maker is still inside. |
| `LocaleLock.RobberyAdmitsTwo` | mkfast-template-main/scripts/locale/paraglide-sync.ts:326-328 | After a rename, the thief's own mkdir keeps mutual exclusion if and only if the rename robbed nobody. |
| `LocaleLock.OwnedThroughoutIffNeverRobs` | mkfast-template-main/scripts/locale/paraglide-sync.ts:298-339 | Over every run, with no hypothesis: every live call inside owns the directory in every state if and only if no step of the run robs; and then mutual exclusion holds. |
| `LocaleLock.SecondReleaseRemovesNothing` | mkfast-template-main/scripts/locale/paraglide-sync.ts:313-320 | Once a release has completed, in every later state of the run a second call of the release function removes nothing. |
| `LocaleLock.DirectoryIff` | mkfast-template-main/scripts/locale/paraglide-sync.ts:307-320 | In every run, a directory made by a call is at the lock path if and only if its mkdir succeeded and no rename and no end of a release has run since. |
| `LocaleLock.ReleaseFreesTheLock` | mkfast-template-main/scripts/locale/paraglide-sync.ts:313-320 | In every run in which nobody is robbed, the end of a release removes the caller's own directory and the next mkdir of any polling call succeeds. |
| `LocaleLock.HoldersCanRelease` | mkfast-template-main/scripts/locale/paraglide-sync.ts:313-320 | After every run a live holder can release, and that leaves the path free. |
| `LocaleLock.AlwaysAcquirable` | mkfast-template-main/scripts/locale/paraglide-sync.ts:306-329 | After every run a live polling call can go on to hold the lock: at once if the path is free or its owner is dead, else no later than the directory goes stale. |
| `LocaleLock.WaitsWhileFresh` | mkfast-template-main/scripts/locale/paraglide-sync.ts:326-337 | A call that polls while a fresh lock is held leaves it alone and comes to wait. |
| `LocaleLock.GivesUpIff` | mkfast-template-main/scripts/locale/paraglide-sync.ts:330-337 | A waiting call gives up if and only if `timeoutMs` have passed since it started; otherwise it polls again. |
| `LocaleLock.StaleVerdictLetsTwoIn` | mkfast-template-main/scripts/locale/paraglide-sync.ts:326-327 | Without the first hypothesis: two waiters condemn a dead owner's lock and both end up inside, at time 0. |
| `LocaleLock.SlowHolderLetsTwoIn` | mkfast-template-main/scripts/locale/paraglide-sync.ts:254-276 | Without the second hypothesis: a true verdict robs a live holder that outlived `staleMs`. |
| `DirectorySync.DiffDirectories` | mkfast-template-main/scripts/locale/paraglide-sync.ts:98-126 | `changed` holds exactly the staged files that are missing from or different in the target, `removed` exactly the target files not staged. |
| `DirectorySync.OutputDirectory.ApplyDirectoryDiff` | mkfast-template-main/scripts/locale/paraglide-sync.ts:157-171 | Succeeds if and only if no staged file clashes with a directory, or its parents with files; then the target's files equal the stage, only files of the diff were touched, no empty directory remains below the target, and every later diff is empty. |
| `DirectorySync.OutputDirectory.PruneEmptyDirectories` | mkfast-template-main/scripts/locale/paraglide-sync.ts:128-150 | Removes exactly the directories below `dir` that hold no file at any depth, and keeps the tree well formed. |
| `DirectorySync.OutputDirectory.CopyChanged` | mkfast-template-main/scripts/locale/paraglide-sync.ts:162-166 | The copy loop succeeds if and only if none of its files clashes in the original target. |
| `DirectorySync.OutputDirectory.RemoveFiles` | mkfast-template-main/scripts/locale/paraglide-sync.ts:167-169 | Removes exactly the listed files; a missing one is no error. |
| `RoleChange.AdminRemainsAndAuditReplays` | mkfast-template-main/src/auth/admin-set-role.ts:226-311 | In every interleaving of role changes, aborts, sign-ups and logins in which every change takes the advisory lock, starting with an admin: an admin remains, each audit row starts from the role the earlier rows lead to and really changes it, and replaying the rows gives the current roles (null read as user). |
| `RoleChange.StepKeepsInv` | mkfast-template-main/src/auth/admin-set-role.ts:226-311 | Each step keeps the invariant that ties the lock, the role read, the last-admin verdict and the pending audit row of every open transaction. |
| `RoleChange.CommitEndsTheSubjectsSessions` | mkfast-template-main/src/auth/admin-set-role.ts:232-303 | However role changes, logins and logouts interleave, with or without the advisory lock, a commit leaves no session of its subject and every session of everybody else: the subject's row, locked by the select for update, keeps logins out, and the deleted session rows keep logouts out. |
| `RoleChange.LateLoginWithoutRowLock` | mkfast-template-main/src/auth/admin-set-role.ts:232-240 | Without the row lock taken for the session's foreign key: a run under the advisory lock in which the subject's session is opened between the delete statement and the commit, exists when the commit runs, and survives it. |
| `RoleChange.OnlyPermittedChangesCommit` | mkfast-template-main/src/auth/admin-set-role.ts:212-277 | In every run under the lock, whatever commits has a reason, a platform role, an existing subject with another role and, for a demotion, another admin, judged by the roles at its commit. |
| `RoleChange.PermittedChangeCommits` | mkfast-template-main/src/auth/admin-set-role.ts:226-311 | After every run that leaves the advisory lock and the subject's row free, a permitted change that runs alone commits: new role, one audit row with both roles and the trimmed reason, exactly the subject's sessions gone, lock free. |
| `RoleChange.BrokenRuleIsAnswered` | mkfast-template-main/src/auth/admin-set-role.ts:212-277 | A request that breaks a rule and runs alone is refused for the first rule it breaks (blank reason, role other than admin or user, unknown user, role held already with null read as user, last admin), changes nothing else and gives the lock back. |
| `RoleChange.LockIsHeldIff` | mkfast-template-main/src/auth/admin-set-role.ts:226-230 | In every run under the advisory lock, a transaction holds it if and only if it is between its first statement and its end. |
| `RoleChange.FreeLockFreesRows` | mkfast-template-main/src/auth/admin-set-role.ts:226-240 | Under the advisory lock, whenever that lock is free no user's row is held. |
| `RoleChange.WriteSkewWithoutLock` | mkfast-template-main/src/auth/admin-set-role.ts:227-230 | Without the lock two demotions pass each other's check and leave no admin. |
| `StableSubmission.SameKeyIff` | mkfast-template-main/src/lib/stable-submission-attempt.ts:32-67 | Over every run with new keys, two begins return the same key if and only if they agree on scope and fingerprint and neither a begin with another payload in that scope nor a completion of that very attempt lies between them. |
| `StableSubmission.SameKeySamePayload` | mkfast-template-main/src/lib/stable-submission-attempt.ts:86-95 | The same key is returned only for payloads that differ in object key order at most. |
| `StableSubmission.SamePayloadKeyIff` | mkfast-template-main/src/lib/stable-submission-attempt.ts:32-52 | For payloads without tied names: the same key is returned if and only if the scopes agree, the payloads differ in key order at most, and nothing ended the attempt in between. |
| `StableSubmission.CompletingAnOlderAttempt` | mkfast-template-main/src/lib/stable-submission-attempt.ts:54-67 | From the return of a newer attempt in the scope on, at every later point of the run, completing the older one leaves the storage as it is. |
| `StableSubmission.CompletionFreesIff` | mkfast-template-main/src/lib/stable-submission-attempt.ts:54-67 | At every later point, completing an attempt removes its scope's entry if and only if the attempt still lives, and changes nothing otherwise. |
| `StableSubmission.LifeOfAnAttempt` | mkfast-template-main/src/lib/stable-submission-attempt.ts:32-67 | From its return on, an attempt is stored in its own scope and nowhere else until an event ends it; then its key is gone for good. |
| `StableSubmission.SubmissionAttempts.Begin` | mkfast-template-main/src/lib/stable-submission-attempt.ts:32-52 | Reuses or replaces the attempt of the scope and touches no other scope. |
| `StableSubmission.SubmissionAttempts.Complete` | mkfast-template-main/src/lib/stable-submission-attempt.ts:54-67 | Removes the scope's entry only if it is this attempt, and touches no other scope. |
| `StableSubmission.SubmissionAttempts.RunWith` | mkfast-template-main/src/lib/stable-submission-attempt.ts:20-30 | Whatever other submissions do to the storage while the action is awaited: a failed action leaves the storage for the retry, and with new keys a successful one clears the scope if and only if nothing ended the attempt meanwhile, so a newer attempt survives. |
| `CanonicalJson.CanonicalIfSame` | mkfast-template-main/src/lib/stable-submission-attempt.ts:97-107 | A payload in which no object holds two tied names shares its canonical form with every payload that differs from it only in object key order, at any depth. |
| `CanonicalJson.SameIfCanonical` | mkfast-template-main/src/lib/stable-submission-attempt.ts:97-107 | Payloads with the same canonical form differ only in object key order, for every comparison. |
| `CanonicalJson.CanonicalIffSame` | mkfast-template-main/src/lib/stable-submission-attempt.ts:97-107 | Both directions together, for a payload without tied names. |
| `CanonicalJson.CanonicalIsIdempotent` | mkfast-template-main/src/lib/stable-submission-attempt.ts:97-107 | For every total preorder on keys, ties included, the canonical form of a canonical form is itself. |
| `CanonicalJson.CanonicalIsInKeyOrder` | mkfast-template-main/src/lib/stable-submission-attempt.ts:97-107 | At every depth, a canonical object lists array indices in ascending order and then its names in the order of the comparison. |
| `CanonicalJson.IndexIff` | mkfast-template-main/src/lib/stable-submission-attempt.ts:101-105 | The names that the host enumerates first are the canonical numerals below 4294967295. |
| `CanonicalJson.CanonicalIsWellFormedAndSame` | mkfast-template-main/src/lib/stable-submission-attempt.ts:97-107 | The canonical form is the payload itself up to key order: nothing is lost, changed or invented. |
| `CanonicalJson.KeyOrderIsDecidedIffNoTies` | mkfast-template-main/src/lib/stable-submission-attempt.ts:101-104 | A payload shares its canonical form with all payloads that differ in key order only if and only if no object in it, at any depth, holds two different names (array indices aside) that the comparison ties. |
| `CanonicalJson.AccentShowsKeyOrder` | mkfast-template-main/src/lib/stable-submission-attempt.ts:101-104 | For any comparison that ties the accented letter U+00E9 with the letter and combining accent U+0301, a two-entry object and its swapped twin have different canonical forms. |
| `CanonicalJson.NoPayloadHasTiesIff` | mkfast-template-main/src/lib/stable-submission-attempt.ts:101-104 | Key order is immaterial for every payload if and only if the comparison ties no two different names at all. |
| `SseDelivery.SubmittedIsAsked` | apps/core/src/sse.ts:39-79 | In every run, what reaches the writer is exactly what the steps asked for: the first heartbeat, every frame of the source once the stream is open, a heartbeat for each tick that finds none queued, and the error report. |
| `SseDelivery.AskedChunksArriveInOrder` | apps/core/src/sse.ts:116-151 | In every interleaving of writes, heartbeats, drains, errors, aborts and closes, the response receives a prefix of what was asked for, in order, no write succeeds after a failed one, and the head is written at most once. |
| `SseStream.NothingEverAfterEnd` | apps/core/src/sse.ts:137-151 | Once the response has ended, been destroyed or been aborted, no later step of the run hands it a chunk. |
| `SseDelivery.DisconnectStopsEverything` | apps/core/src/sse.ts:27-34 | From an abort or a close on, no chunk is handed over, whatever is queued or still written. |
| `SseDelivery.FailedWritesDisconnect` | apps/core/src/sse.ts:66-78 | After every run, a failed write of anything but the error report has disconnected the stream. |
| `SseDelivery.ThrowIsAnswered` | apps/core/src/sse.ts:92-106 | What a failure of the source does: one head and no chunk before the stream is open, nothing after a disconnect, a destroyed response without an encoder, otherwise the report as the last chunk. |
| `SseStream.HeartbeatsDoNotPileUp` | apps/core/src/sse.ts:55-73 | At most one timer heartbeat is ever queued. |
| `SseStream.FlushedChunksAreHanded` | apps/core/src/sse.ts:80-90 | When the flush reports success, everything submitted until the source returned has been handed over before the end. |
| `SseStream.UndisturbedRunLosesNothing` | apps/core/src/sse.ts:124-151 | In every run in which nothing throws, breaks or closes, whatever the backpressure and heartbeats, no write fails and every chunk whose turn has come has been handed over. |
| `SseDelivery.UndisturbedStreamCarriesTheFrames` | apps/core/src/sse.ts:80-91 | An undisturbed stream that is finished has ended the response and handed over, in order and apart from heartbeats, every frame that the source wrote before it returned. |
| `SseDelivery.UndisturbedStreamCanFinish` | apps/core/src/sse.ts:80-91 | However far an undisturbed run has come, the source can return and the stream can be finished, and then the response has received exactly what was asked for. |
| `SseStream.RunKeepsInv` | apps/core/src/sse.ts:39-112 | The chain, head and heartbeat invariants hold after every run. |
| `AuditCsv.BuildAuditCsv` | mkfast-template-main/src/p1/admin-audit-filter-model.ts:153-162 | The export, read with the grammar of section 2 of RFC 4180 (line feed as row end), gives the header `id, action, actor, correlationId, createdAt, reason, scope` and those seven fields of every event. |
| `AuditCsv.CsvReadsBack` | mkfast-template-main/src/p1/admin-audit-filter-model.ts:132-162 | Whatever quotes, commas or line breaks the cells hold, the document reads back cell for cell. |
| `AuditCsv.CellStaysIff` | mkfast-template-main/src/p1/admin-audit-filter-model.ts:142-147 | A cell is written as it is if and only if it holds no quote, comma or line break. |
| `AuditCsv.CsvIsInjective` | mkfast-template-main/src/p1/admin-audit-filter-model.ts:153-162 | Two event lists with the same export are the same list. |
| `TaskRoute.CoreRecoversTheIds` | apps/core/src/composer-plan-route-registrar.ts:169-188 | For all ids, commands and queries: Core's parser finds, in the normalised pathname of the built path, exactly the two ids if the command is the one asked for and both ids are non-empty and not `.` or `..`, and no route in every other case. |
| `TaskRoute.UpstreamPathname` | mkfast-template-main/src/lib/core-request.ts:547-553 | The pathname of the built path is its eight segments with dot segments resolved; the query never leaks into it. |
| `TaskRoute.UpstreamText` | mkfast-template-main/src/lib/core-request.ts:492-514 | The four resource builders and the upstream builder write the eight segments and the query. |
| `TaskRoute.TaskRouteReadsThePattern` | apps/core/src/composer-plan-route-registrar.ts:173-178 | The segment-wise parser returns an address if and only if the pathname is of the route's pattern with two non-empty slash-free parts that decode to it. |
| `TaskRoute.RoutesAreDisjoint` | apps/core/src/composer-plan-route-registrar.ts:173-178 | No pathname is a route of two commands. |
| `PercentEncoding.DecodeUndoesEncode` | apps/core/src/composer-plan-route-registrar.ts:180-184 | Percent-decoding (section 2.1 of RFC 3986, over UTF-8) undoes percent-encoding for every string of Unicode scalar values. |
| `PercentEncoding.EncodedText` | mkfast-template-main/src/lib/core-request.ts:495-513 | Encoded text is made of letters, digits, `-_.!~*'()` and percent signs with two upper-case hexadecimal digits, and a character is left alone exactly when it is one of those. |
| `PercentEncoding.DecodeKeepsBytes` | apps/core/src/composer-plan-route-registrar.ts:180-184 | Decoding never changes the bytes that a text stands for in UTF-8 (section 3 of RFC 3629), so overlong forms, surrogates and stray bytes are refused. |
| `BodyReader.ReadRequestBytes` | mkfast-template-main/src/lib/core-request.ts:205-232 | Returns the exact concatenation if and only if no larger length is declared and the total is within the limit; a refusal comes with the very first chunk that passes the limit. |
| `BodyReader.CopyChunks` | mkfast-template-main/src/lib/core-request.ts:225-230 | The copy loop fills the array exactly, in order. |
| `BodyReader.BodyUpTo.OnData` | apps/core/src/server.ts:495-506 | Counts, refuses or keeps a chunk; once settled nothing changes. |
| `BodyReader.BodyUpTo.OnEnd` | apps/core/src/server.ts:507-511 | Settles an open reading with the collected bytes. |
| `BodyReader.BodyUpTo.OnError` | apps/core/src/server.ts:512-516 | Rejects an open reading. |
| `BodyReader.BodyUpTo.OnAborted` | apps/core/src/server.ts:517-521 | Rejects an open reading. |
| `BodyReader.FirstDecisionSettles` | apps/core/src/server.ts:490-523 | Whatever events arrive, the first one that ends, breaks or overflows the body settles the promise with its own verdict. |
| `BodyReader.SettlesAtMostOnce` | apps/core/src/server.ts:490-523 | The promise settles at most once, exactly when some event decides, and never changes. |
| `BodyReader.CompleteBody` | apps/core/src/server.ts:490-523 | A complete body settles with its exact concatenation if that fits and is refused otherwise, whatever follows the end. |
| `BodyReader.ChunkingDoesNotMatter` | apps/core/src/server.ts:490-523 | Two chunkings of one body give the same outcome. |
| `BodyReader.ReadersAgree` | apps/core/src/server.ts:490-523 | The pulling and the pushing reader agree on every complete body without a declared length. |
| `JsonComplexity.AssertJsonComplexity` | apps/core/src/server.ts:550-573 | The explicit stack terminates and accepts a tree if and only if its recursive node count is at most 50,000 and its recursive depth (root at 1) at most 64. |
| `ImportClosure.CollectUnits` | mkfast-template-main/scripts/sync-heroui-pro.ts:115-151 | Terminates on any finite mirror; fails if and only if some reachable unit does not resolve; otherwise copies exactly the units reachable from the requested components. |
| `ImportClosure.ReachableIsLeastClosed` | mkfast-template-main/scripts/sync-heroui-pro.ts:110-114 | The copied set is the least one that holds the request and is closed under imports. |

## Left out

- URLs in the probe: parsing is abstracted to what the probe reads from a URL (fault parameter, decoded Thread segment, raw offset); redaction for diagnostics and the injected forward URL's text are not modelled.
- `beginRequestAfterTarget`: its waiters and timeout only delay `beginRequest`; delays are covered by quantifying over all runs.
- The REFERENCES pattern of the D1 sync: a table's set of referenced names is given with the table, in order of appearance.
- `localeCompare` is a parameter: any function for drop orders, a total preorder for canonical payloads. `toUpperCase` is a parameter of the statement classifier.
- `JSON.stringify` followed by SHA-256 is taken to be injective on canonical payloads; storage text is modelled by what it parses to.
- Strings are sequences of Unicode scalar values: lone surrogates, on which `encodeURIComponent` throws, and lengths in UTF-16 units (the 200-unit limit on Thread ids) are not modelled.
- Role changes: isolation levels and the database trigger that also guards the last admin; every role write is taken to go through the modelled transaction, a transaction's writes become visible at its commit, and a step that would wait for a row lock is not enabled until the row is free.
- Locale lock: owner files that hold no readable owner, failing renames or removals, and the developer heartbeat files.
- Directory sync: symbolic links, I/O errors other than clashes of files with directories, concurrent writers, and the sorted order of the listings.
- SSE: the source calls `ready` and `write` only before it settles; a queued link that is never run because the process dies is a run that stops there; response headers' contents are not modelled.
- URL normalisation covers dot segments, the query and the fragment, which is all that a built path can exercise; backslashes, control characters and non-ASCII path text are not modelled.
- Body readers: the declared length is a number or unreadable; cancelling the stream is modelled by reading no further chunk; text decoding is not modelled.
- Import closure: resolving an import text to a unit id and reading sources; a mirror maps each resolvable unit to the units it imports. Copying, patching and the manifest are not modelled.
- `filterAuditEvents` and file download: each is settled by reading one expression.
- React components, route handlers, payment, session and configuration gates, capability catalogs: plumbing, static data or one-branch rules, which would only add easy members.
