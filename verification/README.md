# Verified model of hp-guard

hp-guard is a host-local policy guard for tool calls. This project models its
most intricate parts in Dafny and proves what they promise:

- the audit log: crash-transactional rotation, recovery of a torn last record,
  pruning, and the history that is retained over whole runs;
- the fixed-window quota store, alone and under threads;
- the portable argument pattern, its two parsers and two matchers, and the path
  glob;
- condition trees, policy documents, read off place by place, and the choice of
  the deciding rule;
- the enforcement boundary that audits before it answers.

Operations that the program carries out step by step appear twice: as a method
of a class or with loops, and as a function of values to which the method's
`ensures` ties it exactly. The laws are lemmas about the functions, so they hold
of the methods.

How the disk is modelled. A directory is a map from symbolic names to contents,
with a budget of primitives (create, write, rename, remove, sync). When the
budget is used up, the next primitive does not happen and the operation is
interrupted; an interrupted record write may leave any prefix of its bytes. A
budget that can end anywhere, and be refilled by a restart, ranges over every
crash schedule. An interruption either kills the process or is an I/O error that
the process survives. A log instance that has recovered stays ready through such
an error, as in the code; the laws about runs ask that a ready instance is used
only while no rotation is pending and the active file ends with a line, which
`Retrying.NeverRetryingIsCovered` shows of every host that restarts after a
failed append. The enforcement boundary runs on this same log and directory.

What the proofs found, where the code and its own documents differ:

- The design document promises that every interrupted rotation converges. It
  does not while a manifest is being written under its temporary name: that file
  makes every later opening fail, for ever. Nothing is lost then.
  `CrashConvergence.RefusedExactlyWhileManifestIsHalfWritten` gives the exact
  condition.
- It promises that a refused recovery mutates nothing. A refusal that is noticed
  late comes after renames. `RecoveryFromAnyLayout.RefusalLeavesFilesAloneExactly`
  gives the exact condition.
- A torn write of the first record of an active file blocks the Rust log, since a
  file without a newline counts as corrupt; Python truncates it. The first
  append after each rotation is such a write.
  `TailParity.RuntimesAgreeExactly` and `Reopening.OpensAgainExactly`
  give the exact conditions.
- Python takes a record apart at a carriage return inside it, and refuses the
  file; Rust accepts it. `TailParity.InnerReturnsDecide` gives the exact
  condition.
- An append on the same instance after a torn write is acknowledged, but its
  record joins the torn bytes. `Retrying.OwnLineExactly` gives the exact
  condition.
- With rules of different window lengths a full quota store evicts buckets that
  still count, and more than `max_calls` calls pass. `Quota.AgreementKeptExactly`
  gives the exact condition, and `Quota.QuotaWithEvictions` the bound that
  remains.
- An activation whose append failed after its record was written leaves a record
  of a policy that never became active, and later authorizations name another
  policy than the last activation. `AuditBeforeEffect.PoliciesNamedExactly` gives
  the exact condition for whole runs, and `AuditBeforeEffect.CurrentKeptExactly`
  that for one step.

## Model

| member | source | states |
|---|---|---|
| `CrashConvergence.CrashConvergence` | src/audit.rs:261-321 | For every crash schedule of a rotation and its restarts: if the log opens, the layout is that of one atomic shift (or the old one, if nothing had happened yet); if it refuses, a temporary manifest is there; no retained file is lost |
| `CrashConvergence.RefusedExactlyWhileManifestIsHalfWritten` | src/audit.rs:225-247 | After any schedule the next opening is refused if and only if a temporary manifest was left, then without any change; otherwise it completes, given enough primitives |
| `CrashConvergence.HalfWrittenManifestBlocksForever` | src/audit.rs:395-411 | A crash right after the temporary manifest is created is never recovered from |
| `CrashConvergence.RecoverManifestAt` | src/audit.rs:261-321 | From every layout with a manifest in place, one recovery with any budget ends further along the same line of layouts, never refused, and at the shift if it is not interrupted |
| `CrashConvergence.FinishRotationAt` | src/audit.rs:225-247 | Opening is refused exactly at the two points where a manifest is being written; otherwise it moves forward |
| `CrashConvergence.RotateCurrentAt` | src/audit.rs:467-493 | A rotation with any budget leaves one of the layouts of the line; it is untouched exactly if the budget was zero |
| `CrashConvergence.StageSlotAt` | src/audit.rs:323-350 | Staging a slot moves the layout one point further, or does nothing if that was done |
| `CrashConvergence.InstallSlotAt` | src/audit.rs:352-381 | Installing a slot moves the layout one point further, or does nothing if that was done |
| `CrashConvergence.DiscardAt` | src/audit.rs:311-320 | The oldest backup goes before the manifest, and both only after every install |
| `CrashConvergence.WriteManifestOutcome` | src/audit.rs:395-411 | A manifest write leaves nothing, its temporary file, or the new manifest in place, by where it stopped |
| `CrashConvergence.CompleteIsShift` | src/audit.rs:302-310 | The last layout of the line is exactly the shift: backup 1 is the old active file, backup i + 1 the old backup i, the last one gone |
| `RotationConservation.RunConservesRecords` | src/audit.rs:289-318 | Over every run, the directory holds exactly the old record files as a multiset, except that the oldest backup may be gone; it is gone once the log has opened on the shifted layout |
| `RotationConservation.KeptAt` | src/audit.rs:302-318 | At each point of a rotation the record files are the old ones; only the dropping of the oldest backup removes one |
| `RecoveryFromAnyLayout.RecoverySucceedsExactly` | src/audit.rs:261-381 | On an arbitrary directory, recovery succeeds if and only if every slot that the phase looks at is in exactly one legal place or in none as declared; and what it leaves is stated for every name |
| `RecoveryFromAnyLayout.RecoveryKeepsRecords` | src/audit.rs:323-381 | On an arbitrary directory, a refused recovery keeps every record file and any other loses at most the staged oldest backup, after all installs |
| `RecoveryFromAnyLayout.RefusalLeavesFilesAloneExactly` | src/audit.rs:323-381 | A refused recovery changed nothing if and only if no slot could be moved before the one that is refused |
| `RecoveryFromAnyLayout.RefusalAfterMove` | src/audit.rs:332-338 | A directory on which the refusal comes after the active file has been renamed |
| `RecoveryFromAnyLayout.KeptMoved` | src/audit.rs:339-344 | A rename onto a free name keeps the multiset of record contents |
| `RotationSpec.Occupied` | src/audit.rs:481-489 | The manifest lists exactly the backups that exist, in ascending order |
| `TailRecovery.RustTailExactly` | src/audit.rs:552-590 | For every content: accepted if and only if it is one or more complete records; truncated to n if and only if it is complete records of n bytes and a torn tail; refused otherwise |
| `TailRecovery.TornAppend` | src/audit.rs:186-198 | A write of one record that stopped after k bytes: kept, cut back to the old log, or refused, exactly by k, by whether the cut is inside a character, and by whether it is the first record of the file |
| `TailParity.PythonTornAppend` | src/hp_guard/audit.py:184-211 | The same classification for Python, on every log that Python accepts, the first record of a file included |
| `TailRecovery.RecoveryIsIdempotent` | src/audit.rs:559-590 | Recovery removes nothing up to the last newline, and recovering twice is recovering once |
| `TailParity.RuntimesAgreeExactly` | src/hp_guard/audit.py:184-211 | For every content, and whatever the JSON libraries of the two runtimes accept, they decide alike if and only if: without a newline, the file is neither empty nor a torn record for Python; with one, both accept all lines and the tail or neither does |
| `TailParity.InnerReturnsDecide` | src/hp_guard/audit.py:193-196 | With one JSON grammar for both: if all lines are records and the tail is not refused, the runtimes differ if and only if a line has a carriage return that is not its last byte; premise: sections 2 and 4 of RFC 8259, a carriage return at the end of a text is white space and after a complete object there is only white space |
| `TailParity.AgreeWithoutInnerReturns` | src/hp_guard/audit.py:193-196 | Under the same premise, on every file with a newline and no such carriage return the runtimes decide alike |
| `TailParity.AcceptedLineByLine` | src/hp_guard/audit.py:193-196 | Splitting the complete part at newlines and carriage returns judges it line by line |
| `TailParity.CarriageReturnInsideRecord` | src/hp_guard/audit.py:193-196 | A line with a carriage return inside a record is one record for Rust and is refused by Python |
| `TailRecovery.RustTailWithoutNewline` | src/audit.rs:559-569 | Rust refuses every file without a newline, even an empty one |
| `TailRecovery.CompleteEnd` | src/audit.rs:559-560 | The complete part ends just after the last newline |
| `RetentionOverRuns.EveryStepCarries` | src/audit.rs:186-259 | In every step of every run, whatever interrupts it, whatever the clock reads and with any size and age limit: each slot, read through the manifest, goes on with the same records, or all move on by one slot; missing is only what was in the last slot of a rotation or in a backup that has expired at the step's clock reading; and only the record of the step is added, to the first slot |
| `RetentionOverRuns.RecordsStay` | src/audit.rs:186-259 | In particular a record stays in its slot or moves to the next, unless it was in the last slot or in an expired file |
| `RetentionOverRuns.EveryStepRetains` | src/audit.rs:467-493 | Without an age limit the retained records after a step are those before it, less either nothing or exactly the records of the last slot, and then the record of the step |
| `RetentionOverRuns.AcknowledgedIsRetained` | src/audit.rs:186-198 | After every run, an acknowledged record is the last of the history and of the files, and the files hold exactly the retained records; these are an end of the history, with an age limit if the clock readings of the run never went back |
| `Reopening.HoleClosedExactly` | src/audit.rs:441-465 | A hole that a crash left among the backups is closed by the next uninterrupted pruning if and only if the older backup has expired at its clock reading; if the clock went back it need not be |
| `RetentionOverRuns.RetainedAtAnyTime` | src/audit.rs:467-493 | Without an age limit, at every moment of every run the retained records, read through the manifest, are an end of the history and include its last record |
| `RetentionOverRuns.LogicalIsRetained` | src/audit.rs:186-259 | At every moment the bytes of the files, read through the manifest, are the retained records and at most a torn line |
| `Retrying.NeverRetryingIsCovered` | src/audit.rs:207-223 | Every run of a host that does not append again on an instance whose last append failed half-way finds a ready log in order, and so is within these laws |
| `Retrying.OwnLineExactly` | src/audit.rs:186-198 | On a ready instance without a pending rotation, an acknowledged record is on a line of its own if and only if the file it is written to is new or ended with a line |
| `Retrying.RetryAfterTear` | src/audit.rs:216-221 | A run of two appends on one instance: the write of the first is torn and fails, the second is acknowledged, and its record is not on a line of its own |
| `Reopening.OpensAgainExactly` | src/audit.rs:225-259 | After any run the log opens again if and only if no temporary manifest is left and the active file, if there is one, has a newline and after the last one nothing or a torn part of a record |
| `Reopening.TornFirstRecordBlocks` | src/audit.rs:193-195 | A torn write of the first record of a log makes it impossible to open |
| `Reopening.PruneLeavesHole` | src/audit.rs:441-465 | A crash while pruning can remove a newer backup and leave an older one |
| `RetainedSize.SizeLimitHolds` | src/audit.rs:413-439 | With a size limit, at every moment of every run each slot is within it or holds at most one record, whole or torn |
| `RetainedSize.RetainedSizeIsBounded` | src/audit.rs:413-439 | At every moment the retained bytes are at most the number of files times the limit, or the largest record |
| `RetainedHistory.ActiveAfterAppend` | src/audit.rs:413-439 | The active file after an acknowledged append: the old bytes and the line, if and only if it was empty, or the size limit has room for the line and the age limit is not reached; otherwise the line alone |
| `RetainedSize.TornIsPartOfRecord` | src/audit.rs:193-195 | What follows the last newline is at any time a part of a record that was to be appended |
| `RetentionOfSteps.AppendCarried` | src/audit.rs:186-198 | One append, interrupted anywhere, carries the slots on and adds its record exactly if its whole line was written |
| `RetentionOfSteps.FinishRotationCarried` | src/audit.rs:225-247 | Opening on a pending rotation loses no slot but the last, and moves the others on exactly if it completes |
| `RetentionOfSteps.RecoverTailsCarried` | src/audit.rs:248-257 | Recovering the tails keeps all records of all slots |
| `AuditHistory.PruneEffect` | src/audit.rs:441-465 | Pruning removes expired backups only, and all of them if it is not interrupted |
| `AuditHistory.PrunedExactly` | src/audit.rs:441-465 | After an uninterrupted pruning each name holds what it held, unless it is a backup in the range whose age has reached the limit; then it is gone |
| `ClosedLog.ClosedRefuses` | src/audit.rs:200-210 | From a close to the next restart no file and nothing of the history changes, and every append is refused as closed, unless the process had been killed before |
| `ClosedLog.KilledDoesNothing` | src/audit.rs:186-223 | After a crash nothing happens to the directory and nothing is acknowledged until the next restart |
| `ClosedLog.FailedOpeningIsForgotten` | src/audit.rs:216-221 | An instance whose opening failed is in the state of a new one, so that its next append opens the log again |
| `ClosedLog.OpensOnce` | src/audit.rs:207-223 | An instance that has opened once answers every later append by the append alone, whatever became of those before |
| `AuditLogs.AuditLog.StageSlot` | src/audit.rs:323-350 | The method does exactly the staging step |
| `AuditLogs.AuditLog.InstallSlot` | src/audit.rs:352-381 | The method does exactly the installing step |
| `AuditLogs.AuditLog.WriteManifest` | src/audit.rs:395-411 | The method does exactly the manifest write |
| `AuditLogs.AuditLog.RecoverManifest` | src/audit.rs:261-321 | The method with its loops does exactly the recovery that the laws are about |
| `AuditLogs.AuditLog.RotateCurrent` | src/audit.rs:467-493 | The method does exactly the rotation that the laws are about |
| `AuditLogs.AuditLog.RecoverTails` | src/audit.rs:225-259 | The method does exactly the opening that the laws are about |
| `AuditLogs.AuditLog.DecideTail` | src/audit.rs:552-583 | The loop over the lines decides exactly as the tail rule |
| `AuditLogs.AuditLog.PruneExpiredBackups` | src/audit.rs:441-465 | The ascending loop does exactly the pruning that the laws are about |
| `AuditLogs.AuditLog.RotateBeforeAppend` | src/audit.rs:413-439 | The method rotates and prunes exactly when the rule says |
| `AuditLogs.AuditLog.EnsureReady` | src/audit.rs:207-223 | A closed log refuses and changes nothing; otherwise recovery runs once and is remembered only if it succeeds |
| `AuditLogs.AuditLog.OpenForAppend` | src/audit.rs:186-192 | The method prunes, rotates and creates the active file exactly as specified |
| `AuditLogs.AuditLog.Append` | src/audit.rs:186-198 | The method answers and changes the disk, the instance and the history exactly as the append of a run; on a closed log it is refused and changes nothing |
| `Directories.Directory.Append` | src/audit.rs:193-195 | An interrupted write leaves a prefix of its bytes |
| `RateLimitStores.InMemoryRateLimitStore.CheckAndConsume` | src/state.rs:87-121 | The locked method does exactly one call of the specified store |
| `RateLimitStores.PythonRateLimitStore.CheckAndConsume` | src/hp_guard/state.py:47-66 | The Python method does the same, and refuses negative readings unchanged |
| `RateLimitStores.PythonRateLimitStore.PruneStaleBuckets` | src/hp_guard/state.py:68-75 | The deletion loop keeps exactly the buckets of the caller's window start |
| `RateLimitStores.InMemoryRateLimitStore.WithCapacity` | src/state.rs:66-74 | A store without room is refused |
| `Quota.StoreRefinesHistory` | src/state.rs:93-120 | Every answer that is not an error is "allowed" if and only if fewer than max_calls earlier calls of the key were allowed in the window, as long as nothing live was evicted |
| `QuotaAnswers.ErrorExactly` | src/state.rs:93-119 | After any calls the next one is answered with an error if and only if a later reading has entered before, or its limit is not zero, its key has no bucket, and at least as many remembered buckets as the capacity begin at its window start |
| `QuotaAnswers.ExhaustedExactly` | src/state.rs:101-107 | It is answered with "exhausted" if and only if no later reading has entered and at least max_calls calls of the key were allowed in the window, as long as nothing live was evicted |
| `QuotaAnswers.AllowedExactly` | src/state.rs:93-120 | It is allowed if and only if no later reading has entered, fewer than max_calls calls of the key were allowed in the window, and the key has a bucket or finds room |
| `QuotaAnswers.LostExactly` | src/state.rs:111-115 | A bucket is lost if and only if a reading in order brings a new key with calls left to a full store and the window of the bucket begins elsewhere |
| `QuotaAnswers.BucketsExactly` | src/state.rs:100-119 | What a call leaves of each bucket: the caller's counts one more if it was allowed, all others are as before, and no other one appears |
| `Quota.AgreementKeptExactly` | src/state.rs:111-119 | The store keeps agreeing with the unbounded history if and only if a call evicts no bucket that still counts |
| `Quota.UniformWindowsNeverEvictLive` | src/state.rs:101-115 | With one common window length no call ever evicts a bucket that still counts |
| `Quota.QuotaHolds` | src/state.rs:101-120 | No window lets more than max_calls calls of a key pass, as long as nothing live was evicted |
| `Quota.QuotaWithEvictions` | src/state.rs:107-119 | With any mix of window lengths, at most max_calls for each eviction of the key's bucket within the window, and max_calls more |
| `Quota.MixedWindowsExceedQuota` | src/state.rs:111-115 | Three calls by which a key with one call per ten seconds gets two |
| `Quota.CapacityKeptExactly` | src/state.rs:107-119 | A call keeps the number of keys within capacity if and only if it is not a new key of a full store under a rule with zero calls |
| `Quota.CapacityHolds` | src/state.rs:107-119 | With limits that a policy can set, the number of keys never exceeds the capacity |
| `Quota.ErrorsChangeNoLiveCount` | src/state.rs:94-99 | A regressing clock changes nothing, and a full store forgets no live count |
| `Quota.SameWindow` | src/state.rs:101-101 | Two instants have one window start if and only if one lies in the window of the other |
| `Quota.WindowStartExactly` | src/state.rs:101-101 | The window of an instant begins at the one multiple of its length that is at most one length before the instant |
| `Bursts.BurstBound` | src/state.rs:101-120 | Any interval of time lets at most (window lengths in it, rounded up, and one) quotas pass |
| `Bursts.TwiceTheQuota` | src/state.rs:101-120 | Any interval of one window length lets at most two quotas pass |
| `Interleavings.QuotaOverInterleavings` | src/state.rs:159-190 | Under every schedule of threads that read the clock before they enter the store, no key gets more than its quota in a window, if all limits share one window length |
| `Interleavings.QuotaOverInterleavingsWithEvictions` | src/state.rs:159-190 | Under every such schedule and any mix of window lengths, a key gets at most one quota for each eviction of its bucket within the window, and one more |
| `Interleavings.RefusedExactlyWhenOvertaken` | src/state.rs:94-99 | A reading of a waiting thread regresses if and only if a later reading entered before it; then the thread is answered with an error and the store stays as it is |
| `Interleavings.EveryOrderIsScheduled` | src/state.rs:159-190 | Every sequence of calls, with whatever readings, is the order in which threads enter the store under some schedule |
| `PatternParser.DecodeInvertsPrint` | src/conditions.rs:129-195 | Parsing and printing are two-sided inverses: a source parses to a pattern if and only if the pattern is legal and is printed as that source |
| `PatternParser.LiteralSources` | src/conditions.rs:141-186 | Which characters stand for themselves, which need a backslash, and which are refused |
| `PatternParser.ParseRust` | src/conditions.rs:129-195 | The Rust loop computes that parse |
| `PatternParser.ParsePython` | src/hp_guard/conditions.py:104-138 | The Python loop computes the same parse |
| `Matcher.MatchFromMeans` | src/conditions.rs:93-127 | The recursion is true if and only if the text can be divided among the tokens, runs for starred ones, with the end anchor respected |
| `Matcher.MatchesFrom` | src/conditions.rs:93-127 | The table stays correct, and cells are computed exactly as often as they are filled, so never twice |
| `Matcher.MatchesAtStart` | src/conditions.rs:88-91 | One start position is decided with at most (tokens + 1) x (characters + 1) evaluations |
| `Matcher.ArgsMatchRust` | src/conditions.rs:75-86 | The scan over start positions decides the declarative meaning |
| `Matcher.PythonMatchesFrom` | src/hp_guard/conditions.py:72-94 | The cached recursion computes the same function, with each cache entry computed once |
| `Matcher.PythonWalkStar` | src/hp_guard/conditions.py:77-87 | The loop form of the star decides what the recursion over single characters decides |
| `Matcher.ArgsMatchPython` | src/hp_guard/conditions.py:67-96 | Python decides the same meaning, with that bound on evaluations for all start positions together |
| `Glob.PathMatches` | src/conditions.rs:197-219 | The two-row program decides the declarative meaning of the glob |
| `Glob.RowEntryMeans` | src/conditions.rs:203-218 | Entry j of the row after i characters is true if and only if those match the first j path characters |
| `ConditionMeaning.ConditionAcceptedExactly` | src/parser.rs:442-565 | A condition is accepted if and only if it is well shaped, at most 32 deep and of at most 128 nodes |
| `ConditionMeaning.AcceptedExactly` | src/parser.rs:451-565 | The same from any depth and count; on success the counter has grown by the tree's nodes |
| `ConditionMeaning.MeaningPreserved` | src/hp_guard/conditions.py:21-43 | Evaluating the parsed tree, as Rust does, equals evaluating the raw tree, as Python does |
| `ConditionMeaning.RenderRoundTrip` | src/parser.rs:451-565 | Rendering and parsing any writable tree within the bounds gives it back |
| `LeafMeaning.LeavesReadExactly` | src/parser.rs:514-564 | A leaf without repeated keys is accepted if and only if each field is, and each part of the condition is what the field of that name says |
| `LeafMeaning.WindowAcceptedExactly` | src/parser.rs:567-609 | A time window is accepted if and only if it is exactly "start" and "end", in either order, with two instants of which the first is earlier |
| `LeafMeaning.WindowIsHalfOpen` | src/conditions.rs:61-63 | A window holds from its start up to, and not at, its end: it is made up of its two parts at any instant between |
| `LeafMeaning.JoinedExactly` | src/conditions.rs:53-55 | The arguments are joined with one space between each two |
| `LeafMeaning.AmbiguityIgnoresCase` | src/parser.rs:653-676 | Whether a text is refused as an ambiguous scalar does not depend on the case of its letters |
| `ConditionParsers.ConditionParser.ParseCondition` | src/parser.rs:451-512 | The method with its running counter does exactly that parse |
| `ConditionParsers.ConditionParser.ParseLeaves` | src/parser.rs:514-564 | The loop over the leaf fields does exactly that parse |
| `ConditionParsers.ParseConditions` | src/parser.rs:442-449 | A missing condition always holds, and any other starts a fresh counter |
| `ConditionParsers.Evaluate` | src/conditions.rs:46-73 | The short-circuiting evaluator decides the meaning of the tree |
| `ConditionParsers.ArgsMatch` | src/conditions.rs:75-86 | Parse and match together decide the meaning of an argument pattern |
| `Resolution.ResolveWithSelectedRule` | src/engine.rs:72-123 | The decision lists all applying rules; deny wins; else the first rule that no rule beats by target count and then action |
| `Resolution.SelectBest` | src/engine.rs:104-114 | The scan finds the first rule that is beaten by none |
| `Resolution.ResolvesUniquely` | src/engine.rs:72-123 | Decision and selected rule are determined |
| `Resolution.ResolveCall` | src/engine.rs:59-70 | A selected allow rule with a limit answers "throttle" |
| `Resolution.ActionIsOrderFree` | src/engine.rs:93-114 | The action before quotas is the same for every permutation of the rules |
| `Resolution.DeniedExactly` | src/engine.rs:83-102 | A call is denied if and only if some applying rule denies, wherever it stands, or no rule applies and the default denies |
| `Decisions.StatelessExactly` | src/engine.rs:59-123 | A decision is the stateless one if and only if the rules prescribe it, by their positions: its indices are those of all covering rules in order; its action is deny if a covering rule denies, the default if none covers, and else that of the rule that no covering rule outranks and that outranks all earlier ones, with "throttle" for an allow rule with a limit |
| `Decisions.StatelessDenyExactly` | src/engine.rs:83-102 | The stateless action is deny if and only if a covering rule denies, or none covers and the default denies |
| `Decisions.StatelessThrottleExactly` | src/engine.rs:59-70 | It is throttle if and only if no covering rule denies, and the deciding rule throttles or allows with a limit, or none covers and the default throttles |
| `Decisions.ResolvedExactly` | src/engine.rs:72-123 | Before quotas: the indices, the action and the selected rule, by the same reading of the rules |
| `Decisions.PrioritiesRank` | src/engine.rs:11-20 | The priorities order the actions as deny, require_approval, throttle, redirect, allow, log |
| `Decisions.FieldMatchesExactly` | src/matching.rs:5-38 | A target field matches if and only if it names the agent, the tool, the user or a context entry of the call with that value |
| `PolicySpec.ParsedPolicyIsWellFormed` | src/parser.rs:61-109 | In every parsed policy rule k has index k, limits belong to allow rules with values in 1..86400, and only in version 2 |
| `DocumentRules.ParsedExactly` | src/parser.rs:61-312 | The rules of a parsed policy are those that stand in the document, all of them and in its order: rule k has the action, the target, the condition and the limit that the raw rule at the k-th place asks for, and the agent and tool that enclose the place; no mapping has a key twice |
| `DocumentRules.NestedRuleIsScoped` | src/parser.rs:143-198 | The rule parsed from an item under agents, A, tools, T has agent A and tool T in its target |
| `DocumentRules.TopLevelRuleIsUnscoped` | src/parser.rs:78-96 | The rule parsed from an item of a top-level rule list asks for exactly what its own target asks for |
| `DocumentRules.DefaultExactly` | src/parser.rs:111-133 | The default action is the one that the "global" section names, and allow if there is none |
| `DocumentRules.DistinctKeysMakeWellKeyed` | src/parser.rs:61-65 | Every document in which no mapping has a key twice, as the YAML library guarantees, is within these laws |
| `DocumentAccepted.DocumentAcceptedExactly` | src/parser.rs:61-312 | A document is accepted if and only if it declares the version, every section, agent and tool has its form, every raw rule stands for some rule, and no id is given twice |
| `DocumentAccepted.VersionExactly` | src/parser.rs:37-51 | The declared version is the number under "version", if it has at most 64 bits |
| `RuleFields.RuleReadExactly` | src/parser.rs:228-312 | A raw rule is accepted if and only if it stands for some rule and its id is not taken, and that rule is then added with the next index |
| `RuleFields.ActionReadExactly` | src/parser.rs:349-361 | A text names an action if and only if it is the spelling of that action |
| `TargetFields.TargetReadExactly` | src/parser.rs:363-424 | A target is accepted if and only if each of its fields is, and it asks for an attribute with a value if and only if one of its fields does |
| `PolicySpec.EntriesAcceptedExactly` | src/parser.rs:228-312 | The rules of a document are accepted if and only if each is acceptable on its own and no id occurs twice |
| `PolicySpec.RateLimitAcceptedExactly` | src/parser.rs:314-347 | A limit is accepted if and only if it is exactly its two fields, in either order, with numbers in 1..86400 |
| `PolicyParsers.PolicyBuilder.AddRule` | src/parser.rs:228-312 | The method adds exactly the rule, id and limit of one entry, numbered by the running index |
| `PolicyParsers.PolicyBuilder.AddRules` | src/parser.rs:200-226 | The loop adds exactly the entries of a rule list |
| `PolicyParsers.PolicyBuilder.AddAgents` | src/parser.rs:135-198 | The nested loops add exactly the entries of the flattened agents section, in order |
| `PolicyParsers.ParseVersion` | src/parser.rs:61-109 | Section by section parsing equals parsing the flattened document |
| `StatefulResolver.RateLimitedPolicyStore.Resolve` | src/state.rs:159-190 | The store is called exactly for a winning allow rule with a limit; allowed is the decision itself, exhausted is "throttle" with the same matched rules, a store error is an error |
| `StatefulResolver.ChargedExactlyForLimitedRule` | src/state.rs:159-190 | In a parsed policy the quota is charged if and only if the selected rule has a limit; the charge has that limit, the clock reading, and the key of the policy digest, the rule, and the agent, user and tool of the call |
| `Independence.SameQuotaExactly` | src/state.rs:172-178 | Two charges use one key if and only if policy digest, selected rule, agent, user and tool are equal |
| `Independence.LookupDependsOnItsQuota` | src/state.rs:159-190 | With clock readings in order and room for the keys of the run, a lookup's answer depends only on the earlier lookups with the same selected rule, agent, user and tool |
| `Independence.FirstOfItsQuotaPasses` | conformance/cases/rate_limits_v2.json:14-21 | So the first lookup with its rule, agent, user and tool gets the policy's decision, however many others have passed |
| `Independence.AnswerDependsOnOwnCalls` | src/state.rs:87-121 | The same of the store: with readings in order and room for all keys, an answer depends only on the earlier calls of its own key |
| `StatefulResolver.PolicyKeepsQuotas` | src/state.rs:159-190 | Over every run of lookups of one parsed policy the store keeps within its capacity, and no key gets more than its rule's quota in a window for each eviction of its bucket, and once more |
| `StatefulResolver.UniformPolicyKeepsQuotas` | src/state.rs:159-190 | If all rules of the policy share one window length, no key ever gets more than its rule's quota in a window |
| `AuditBeforeEffect.EveryRunIsSafe` | src/adapter.rs:162-205 | Over every run of reloads, authorizations, closes and restarts on one directory, whatever interrupts the appends: when a response was given, its own authorization record was the last of the log's history and the last line of its files; the record has stayed in the history; the decision is the one that the rules of the policy active at that time prescribe; the response was in time and carries an effect if and only if it allows; the active policy has a durable activation |
| `AuditBeforeEffect.LastRecordIsRetained` | src/audit.rs:856-904 | Without an age limit the files hold at any time the last records of the boundary, at least one if there is any |
| `AuditBeforeEffect.WorldFollowsLog` | src/audit.rs:856-904 | The directory under the boundary is that of a run of the audit log, so that all laws about such runs hold of it |
| `AuditBeforeEffect.HistoryDeterminesRecords` | src/audit.rs:186-190 | If no two records are written alike, the lines of the log determine the records |
| `AuditBeforeEffect.CurrentKeptExactly` | src/audit.rs:856-862 | In one step the active policy stays the one activated last if and only if the step is not a reload of another policy whose record was written but not acknowledged |
| `AuditBeforeEffect.PoliciesNamedExactly` | src/audit.rs:856-904 | Every authorization of a run names the policy activated last before it if and only if none is written while the active policy is another one |
| `AuditBeforeEffect.AuthorizationsNameLatestPolicy` | src/audit.rs:856-904 | If failed appends leave no record, each authorization names the policy activated last before it |
| `AuditBeforeEffect.StaleActivationMisnames` | src/audit.rs:856-862 | A run on a log in order in which a reload fails at the sync after its record, and the next authorization names another policy than the last activation |
| `AuditBeforeEffect.ActiveChangesOnlyBy` | src/audit.rs:856-862 | Between two moments of a run the active policy becomes another one only by an acknowledged activation of that one, and is lost only by a restart |
| `ClosedBoundary.ClosedBoundaryIsSilent` | src/audit.rs:851-853 | From a close to the next restart no event adds an answer or a record, no file changes, and the active policy stays |
| `BoundaryAnswers.AuthorizeExactly` | src/adapter.rs:162-181 | A request is invalid, late, or answered by exact conditions: identifiers of 1 to 256 bytes, the clock before the deadline, an active policy, and an acknowledged record |
| `BoundaryAnswers.RefusedWithoutTrace` | src/adapter.rs:162-181 | A request that is refused before the audit changes nothing |
| `BoundaryAnswers.AnsweredExactly` | src/adapter.rs:162-205 | A step of a run adds an answer if and only if it is an authorization that meets these conditions, and the answer is the one to its request |
| `BoundaryAnswers.AdapterRecord` | src/audit.rs:883-891 | The record of a request has its identifiers and deadline, the identity of the active policy, and the decision that its rules prescribe |
| `BoundaryAnswers.DirectRecord` | src/audit.rs:865-891 | The record of a direct call has a fresh id, no caller and no deadline |
| `BoundaryAnswers.SnapshotIsOfVersionOne` | src/audit.rs:25-38 | Only a policy of version 1, without quotas, is activated, under the digest of its text |
| `BoundaryAnswers.ReloadExactly` | src/audit.rs:856-862 | A reload takes effect if and only if its text parses and its activation is acknowledged |
| `Enforcement.InlineEnforcementAdapter.Authorize` | src/adapter.rs:162-205 | The method validates, rejects expired work, audits, and answers exactly as specified |
| `Enforcement.AuditedPolicyStore.Reload` | src/audit.rs:856-862 | The method parses, audits and only then replaces the snapshot |
| `Enforcement.AuditedPolicyStore.AuthorizeWithMetadata` | src/audit.rs:869-904 | The method records the decision in the audit log before it returns it, with or without an adapter's metadata |

## Left out

- Power loss that reorders renames: a rename is taken to be atomic and durable once it has happened; syncs are primitives without an effect on names or contents.
- File types, permissions, symlinks and the advisory lock: one writer instance at a time is assumed.
- `RetentionOverRuns.AcknowledgedIsRetained`: with an age limit, that the retained records are an end of the history is stated only for runs whose clock readings never go back; all else about runs is stated for any readings.
- Appending again on an instance that a failed append left with a pending rotation or a torn line: the code allows it and the step is modelled, but the laws about whole runs exclude it.
- `AuditLogs.AuditLog.Append`: takes one clock reading for the whole append, where the code reads the clock for each file; sizes are unbounded, without the saturating 64-bit addition.
- `TailRecovery.TornAppend`: JSON, objects and UTF-8 are predicates; that no proper prefix of an object text is JSON (section 4 of RFC 8259) is a premise about them.
- Runs of the log start from an empty directory and keep one retention count and one age and size limit throughout.
- Manifest JSON: a manifest file is a document or not one; fields unknown to the format, which Rust ignores and Python refuses, are not modelled, and neither is Python's refusal of an empty transaction id.
- `CrashConvergence.CrashConvergence`: does not model two rotations that use one transaction id, since a rotation starts only when no rotation file is left.
- `DocumentRules.ParsedExactly`: assumes mappings without repeated keys, which the YAML library guarantees; so do the other laws that read rules, targets and leaves off a document.
- `Independence.LookupDependsOnItsQuota`: assumes clock readings in order and room for the keys of the run; otherwise other keys can cause an error or an eviction, as `QuotaAnswers.ErrorExactly` and `QuotaAnswers.LostExactly` state.
- `ConditionMeaning.MeaningPreserved`: assumes mappings without repeated keys, which the YAML library guarantees, and takes the instant of a timestamp from that library.
- YAML and RFC 3339 reading, SHA-256 and the clocks are values given from outside; error texts and their order are not modelled.
- `AuditBeforeEffect.EveryRunIsSafe`: takes the writing of a record as a line as a given function into objects on one line, and one clock reading for the decision, the record and the append; runs answer requests of the adapter, not direct calls of the store.
- Outcome records, correlation id generation, request parsing from JSON, the simulator, the command lines and the demo: they add only easy members.
- Python's version of the policy document parser and of the resolution scan: only the pattern parser, the matchers, the condition evaluator, the tail rule and the quota store are compared.
