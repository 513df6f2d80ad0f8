# LongHorizon-Harness: verified models

The harness runs agents for hours or days, so its safety rests on small pieces of state that many processes share and on
small algorithms that clean, compare or rank what those processes leave behind. Ten of them are modelled here and proved
correct. `dafny verify dfyconfig.toml` checks the whole project.

| component | modules | what is proved |
|---|---|---|
| Writer lease (`src/lh_harness/effect_lease.py`) | `EffectLease`, `EffectLeaseStore`, `EffectLeaseRuns`, `EffectLeaseTenures`, `EffectLeaseRaces`, `EffectLeaseExpiry` | fencing by epochs, leases that end exactly when granted to, and linearizable receipts, over every interleaving of lease transactions and of the separate database steps of a check |
| Log parsers of the dashboard (`src/lh_harness/agent_logs.py`) | `AgentLogs`, `AgentLogsBounds`, `AgentLogsExact`, `AgentLogsTexts`, `AgentLogsContent`, `AgentLogsOpenCode` | what the full output shows of any log, step by step; the bounded parser against the unbounded one: exactly when it returns the tail of the full output, and when its answers keep their text |
| Open asks and sealed secrets (`src/lh_harness/ask_store.py`) | `AskRecords`, `AskRuns`, `AskStore`, `AskOutcomes`, `AskRedaction` | what each operation leaves in the record; record and vault agree in every reachable state; secrets go only where the submitter saw; runs that differ in secrets only look alike |
| Redactor and second scan (`scripts/sdlc_export.py`) | `SdlcRedact`, `SdlcRedactClean`, `SdlcRedactScan`, `SdlcText`, `SdlcCredentials`, `SdlcFound` | for every text the independent scan finds nothing in the redacted one; which characters that rules out, and exactly which texts come back unchanged; redaction is idempotent |
| Launcher log dates and shadow verdicts (`scripts/compare_shadow.py`) | `ShadowDates`, `ShadowVerdicts`, `ShadowMeanings` | exactly which logs are recovered from bare `HH:MM`; what each verdict says of the two logs; later observations do not flip verdicts |
| Nonces and hourly ceiling (`src/lh_harness/caller_auth.py`) | `NonceWindow`, `EnqueueRate` | replay distance, table bound, a ceiling in every window, the exact worth of the retry advice |
| TOML printer (`docker/materialize_node_config.py`) | `TomlWrite`, `TomlRead`, `TomlLines`, `TomlText`, `TomlTrip` | reading back the printed text gives the same tree if and only if no top-level scalar follows a table |
| Deny rules and argv classifier (`src/lh_harness/auditor_verify.py`) | `DenyGlob`, `WriteIntent`, `WriteIntentReads` | the greedy glob decides the glob's language; exactly which command lines are taken for reads, and which refusals are final |
| Contention groups (`src/lh_harness/contention.py`) | `Contention` | what the groups are, that the input determines them and their order, and that raising the threshold yields a prefix |
| Merge order (`scripts/overseer/format_prs.py`) | `MergeOrder` | a topological permutation, and termination if and only if no chain of bases closes on itself |

Each stateful component comes twice: as methods that update fields, sequences, maps and local variables the way the
program does, and as functions on values. Every method is proved to do what its function says; the theorems are about
the functions and about runs of them. `Common` holds the vocabulary they share.

## What the proofs show about the code

Where the code does less than its documentation or its reader might expect, the code is modelled and the exact condition
is proved.

- A lease epoch can come back. `docs/effect-lease.md:51` says that an epoch is never reused, but `release` deletes the row
  and the next `acquire` starts at 1 (`EffectLeaseRuns.ReleaseReusesEpochs`). In a run an epoch of a family is handed out
  twice if and only if the family is released and taken again later (`EffectLeaseTenures.EpochIsReusedIff`). The fencing
  theorems therefore speak of one incarnation of a family, the stretch between two releases.
- A takeover can land between the lease read of a check and its receipt; the check is still accepted, under the epoch it
  read (`EffectLeaseRuns.TakeoverBetweenReadAndRecord`). When a receipt is returned, the tenure behind it is still in force
  if and only if the row names its holder and epoch and the family has not been released since the read; within an
  incarnation, if and only if no tenure was handed out since (`EffectLeaseTenures.ReturnedReceiptIsCurrentIff`). Across a
  release the row alone misleads: the same holder can be back at epoch 1 (`EffectLeaseTenures.EndedTenureLooksCurrent`).
- The bounded log parser shows a tool's call step twice when the tool completes after its id has been evicted
  (`AgentLogsBounds.EvictionRepeatsACall`). For Codex logs it returns the tail of the full output if and only if every
  repeated call step has left the ring buffer (`AgentLogsExact.CodexIsTailIff`). For OpenCode the same holds when no
  progress of a running tool is reported again, and "if" holds always; a repeated report adds nothing to the full output,
  so that a repeated call step can stand for the original one (`AgentLogsTexts.RepeatsCanAgree`).
- A bounded answer can lose its text (`AgentLogsTexts.AnswerLosesItsText`). It keeps it if and only if a text is still among
  the buffered steps, or nothing has been said (`AgentLogsTexts.CodexAnswerKeepsItsTextIff`).
- A signed request can pass the nonce check twice at one single instant, 330 seconds after it was first accepted
  (`NonceWindow.ReplayPassesIff`): both window bounds are inclusive.
- Following the retry advice of the hourly ceiling succeeds if and only if by then more entries have left the window than it
  holds above the ceiling: with exactly as many entries as allowed it is one instant too early when the wait is a whole
  number of seconds, and under a zero ceiling it never helps (`EnqueueRate.RetryAdvice`).
- A top-level scalar behind a table is printed inside that table (`TomlTrip.RoundTripIff`, `TomlTrip.DisorderedRun`).
- The docstring of `detect_contention` (`src/lh_harness/contention.py:98`) speaks of grouping non-git workspaces by path,
  but the path key is never passed on. The group `unknown` holds exactly the runs of the qualifying pairs known only by
  path (`Contention.UnknownGroupIff`), also when their workspaces are unrelated
  (`Contention.UnrelatedPathsShareOneGroup`).
- The branch that calls an entry a phantom when the launcher never decided it is taken exactly when the report already
  holds a shadow launch (`ShadowVerdicts.UndecidedPhantomIff`). Every report starts without one, so the branch is never
  taken (`ShadowVerdicts.UndecidedIsNeverPhantom`).
- `_merge_order` has no guard against a cycle of bases. It returns if and only if no pull request is its own ancestor
  (`MergeOrder.EndsIffAcyclic`); one whose base is its own head is enough (`MergeOrder.OwnBaseNeverEnds`).
- Without a `*` in it, a pattern given to `_glob_matches` has to occur twice (`DenyGlob.GlobMatches`); `deny_rule_matches`
  never passes one on.
- The redacted text can still hold a live credential. A quote that closes a placeholder is not looked at again, so that a
  credential it opens is overlooked, by the second scan too: `SdlcFound.QuoteUsedTwice` is a text that comes back as it was.
  The last pass leaves a live credential if and only if the text it is given has such a doubly used quote
  (`SdlcFound.LiveLeftIff`); keys, tokens and private key headers are never left (`SdlcText.NoSecretIsLeft`).
- The redaction of a failure text hides a value without blanks and square brackets in every text if and only if the value is
  no part of the word "redacted" (`AskRedaction.RedactHidesIff`). A value of the apply target's format always stays out of
  the message, as `src/lh_harness/ask_store.py:968` promises (`AskRedaction.ApplyNeverShowsTheValue`).
- Adding arguments to a refused command can make it accepted in three cases only: no command at all, a bare `gh`, and
  `gh auth` (`WriteIntent.RefusalIsFinalIff`).

## Model

| member | source | states |
|---|---|---|
| EffectLease.AcquireDisplacesOnlyTheExpired | src/lh_harness/effect_lease.py:297-356 | at one instant, a well-formed `acquire` on a held family succeeds exactly when the holder's own `renew`, and exactly when its `check`, is refused as expired |
| EffectLeaseStore.LeaseStore.Get | src/lh_harness/effect_lease.py:275-294 | the stored row, none, or the error for an unknown family |
| EffectLeaseStore.LeaseStore.Acquire | src/lh_harness/effect_lease.py:297-356 | the new table and the outcome are those of the transaction `EffectLease.Acquire` |
| EffectLeaseStore.LeaseStore.Renew | src/lh_harness/effect_lease.py:358-414 | the same for `renew`, with its refusals in the order of the original; `EffectLeaseExpiry` says how long the renewed lease lasts |
| EffectLeaseStore.LeaseStore.Release | src/lh_harness/effect_lease.py:416-452 | the same for `release`: the row is deleted |
| EffectLeaseStore.LeaseStore.Takeover | src/lh_harness/effect_lease.py:454-529 | the same for `takeover`: compare-and-swap on the observed epoch |
| EffectLeaseStore.LeaseStore.RecordAction | src/lh_harness/effect_lease.py:532-565 | first write wins: a known key keeps and returns its first receipt, and nothing else changes |
| EffectLeaseStore.LeaseStore.LookUpAction | src/lh_harness/effect_lease.py:567-591 | the recorded receipt; a malformed id finds nothing |
| EffectLeaseStore.LeaseGate.Check | src/lh_harness/effect_lease.py:654-726 | an uninterrupted check: refused with the right error and no trace, or recorded and answered with the first receipt of its key |
| EffectLeaseStore.LeaseGate.Replay | src/lh_harness/effect_lease.py:728-736 | the receipt recorded for the caller's action id |
| EffectLeaseRuns.TenureStep | src/lh_harness/effect_lease.py:297-529 | whatever step is taken, a surviving row changes holder or epoch only when its tenure is replaced, and then the epoch rises by one |
| EffectLeaseRuns.EpochCountsTenures | src/lh_harness/effect_lease.py:297-529 | in every run, within an incarnation, the epoch has risen by exactly the number of successful `acquire` and `takeover` steps |
| EffectLeaseRuns.IncarnationBeginsAtOne | src/lh_harness/effect_lease.py:311-328 | only an `acquire` brings a family's row into being, at epoch 1 |
| EffectLeaseRuns.RowsAreValid | src/lh_harness/effect_lease.py:753-769 | every reachable row belongs to a known family and has a valid holder and a positive epoch |
| EffectLeaseRuns.AcquireNeverCutsInOnALiveHolder | src/lh_harness/effect_lease.py:329-346 | in every run, an `acquire` displaces a holder only at an instant at which the holder's own `renew` and `check` are refused as expired |
| EffectLeaseRuns.EpochDeterminesHolder | src/lh_harness/effect_lease.py:454-529 | within an incarnation, equal epochs mean the same holder |
| EffectLeaseRuns.ReplacedEpochStaysFenced | src/lh_harness/effect_lease.py:387-392 | once tenure is replaced, every later renew, release, takeover and check of the incarnation that presents the old epoch is refused |
| EffectLeaseRuns.AtMostOneTakeoverPerEpoch | src/lh_harness/effect_lease.py:484-513 | of all takeovers that present one epoch within an incarnation, at most one succeeds, whatever runs in between |
| EffectLeaseRuns.EpochsAreNotReusedWithoutRelease | src/lh_harness/effect_lease.py:334-346 | the epochs handed out within an incarnation strictly increase |
| EffectLeaseRuns.ReleaseReusesEpochs | src/lh_harness/effect_lease.py:450-452 | a witness for the next row: a run in which an epoch is handed out again after a release |
| EffectLeaseTenures.EpochIsReusedIff | src/lh_harness/effect_lease.py:297-452 | in any run, an epoch of a family is handed out twice if and only if the family is acquired anew after an earlier tenure, that is, released and taken again later |
| EffectLeaseTenures.RowVanishesIffReleased | src/lh_harness/effect_lease.py:416-452 | a family's row disappears exactly at a successful `release` of it |
| EffectLeaseRuns.WritersAreSerialized | src/lh_harness/effect_lease.py:680-700 | if two different callers pass the gate in one incarnation, the later one holds a strictly later epoch and the earlier one is fenced by then |
| EffectLeaseRuns.ReceiptsAreJustified | src/lh_harness/effect_lease.py:654-726 | behind every receipt and every pending check stands an earlier read at which its holder was the caller and held the unexpired lease at its epoch |
| EffectLeaseRuns.ReceiptsPersist | src/lh_harness/effect_lease.py:532-565 | a recorded receipt is never changed or dropped |
| EffectLeaseRuns.ReturnedIsRecorded | src/lh_harness/effect_lease.py:532-591 | what an accepted check or a replay returns is what is recorded |
| EffectLeaseRuns.ReceiptsLinearize | src/lh_harness/effect_lease.py:532-591 | in every interleaving, all accepted checks and replays of one (family, caller, action id) return the same, justified receipt |
| EffectLeaseRuns.TakeoverBetweenReadAndRecord | src/lh_harness/effect_lease.py:670-718 | a witness for the next rows: a run in which a check is accepted although its lease was taken over between its two steps |
| EffectLeaseTenures.ReceiptIsCurrentIff | src/lh_harness/effect_lease.py:654-726 | within an incarnation, a receipt names the tenure in force exactly as long as no tenure has been handed out since the read behind it |
| EffectLeaseTenures.TenureLastsIff | src/lh_harness/effect_lease.py:654-726 | in any run, the tenure behind a receipt lasts if and only if the row names its holder and epoch and the family has not been released since the read |
| EffectLeaseTenures.ReturnedReceiptIsCurrentIff | src/lh_harness/effect_lease.py:711-726 | both for the step at which a check is accepted or a replay answered, with the read behind its receipt |
| EffectLeaseTenures.EndedTenureLooksCurrent | src/lh_harness/effect_lease.py:416-452 | a run in which the same holder acquires again between read and record, so that the receipt looks current although its tenure has ended |
| EffectLeaseRaces.FirstInsertWins | src/lh_harness/effect_lease.py:548-591 | once an INSERT of a key has succeeded, every later INSERT of it is refused, and every check that looks first and every replay returns the winner's receipt |
| EffectLeaseRaces.FirstInsertSucceeds | src/lh_harness/effect_lease.py:548-564 | the first INSERT of a key in a run succeeds |
| EffectLeaseExpiry.GrantIsStored | src/lh_harness/effect_lease.py:297-529 | a successful `acquire`, `takeover` or `renew` at `now` for `ttl` stores, and returns, the row that its caller holds from `now` to `now + ttl` |
| EffectLeaseExpiry.RenewUntilExpiry | src/lh_harness/effect_lease.py:387-404 | over any run after such a grant, until the next grant or release of the family: the holder's well-formed `renew` at `t` with the epoch granted is refused as expired if and only if `t >= now + ttl`, and succeeds otherwise, to `t` plus its own `ttl` |
| EffectLeaseExpiry.CheckUntilExpiry | src/lh_harness/effect_lease.py:680-697 | so is its check, whatever action id it sends |
| EffectLeaseExpiry.AcquireFromExpiry | src/lh_harness/effect_lease.py:329-356 | and a newcomer's well-formed `acquire` succeeds if and only if `t >= now + ttl` |
| EffectLeaseExpiry.AcquireOfFreeFamily | src/lh_harness/effect_lease.py:311-328 | a family without a row is acquired at epoch 1 |
| EffectLeaseExpiry.EpochDecides | src/lh_harness/effect_lease.py:416-529 | while the grant stands, a well-formed `takeover` succeeds exactly with the epoch granted, and a `release` exactly with that epoch from the holder |
| EffectLeaseExpiry.MintedIdIsTaken | src/lh_harness/effect_lease.py:698-718 | a check without an action id is never refused for its id: the UUID minted for it is well formed |
| EffectLeaseRuns.UninterruptedCheck | src/lh_harness/effect_lease.py:654-726 | run back to back, the three steps of a check do what `LeaseGate.Check` does |
| AgentLogs.LastBufferedText | src/lh_harness/agent_logs.py:451-455 | the newest text still in the buffer, or "" |
| AgentLogs.Remember | src/lh_harness/agent_logs.py:375-380 | the id is added and the oldest ids are evicted down to the cap |
| AgentLogs.ToolSteps | src/lh_harness/agent_logs.py:661-690 | call step, results and bookkeeping of one tool record |
| AgentLogs.CodexRecordSteps | src/lh_harness/agent_logs.py:322-385 | one record changes the parser state as its action says; `AgentLogsContent` says what the actions show |
| AgentLogs.CodexTrajectory | src/lh_harness/agent_logs.py:307-386 | the steps returned are those of the run over all records |
| AgentLogs.OpenCodeRecordSteps | src/lh_harness/agent_logs.py:644-657 | the same for the other format |
| AgentLogs.OpenCodeTrajectory | src/lh_harness/agent_logs.py:639-658 | the same for the other format |
| AgentLogsContent.CodexShows | src/lh_harness/agent_logs.py:322-438 | for every Codex log and after each record, the unbounded output is, record by record, what the record itself says: sessions, messages, thoughts, calls, results and answers with their content |
| AgentLogsContent.CodexShowsKind | src/lh_harness/agent_logs.py:322-438 | the steps of each kind are, in order, one for each record that shows one: the tool results carry the id, output and failure of each completed tool, or the message of each error; the texts are the shown agent messages; a call stands for each started tool and each completed one not named before, with id, name and input |
| AgentLogsContent.ReadCodex | src/lh_harness/agent_logs.py:307-386 | what the parsing loop returns without a bound is that |
| AgentLogsOpenCode.OpenCodeShows | src/lh_harness/agent_logs.py:644-718 | the same for every OpenCode log |
| AgentLogsOpenCode.OpenCodeShowsKind | src/lh_harness/agent_logs.py:661-690 | the steps of each kind, with a tool result for each report of an ended tool, an error unless the status is "completed" |
| AgentLogsOpenCode.ReadOpenCode | src/lh_harness/agent_logs.py:639-658 | what the parsing loop returns without a bound is that |
| AgentLogsBounds.BufferIsNewest | src/lh_harness/agent_logs.py:308-312 | the buffer always holds the newest `k` steps ever appended |
| AgentLogsBounds.SeenIsNewest | src/lh_harness/agent_logs.py:313-321 | the seen-set holds exactly the newest max(32, 4k) remembered ids, the queue lists them once each in order, and both stay within the cap |
| AgentLogsBounds.EveryToolIsRemembered | src/lh_harness/agent_logs.py:374-380 | the unbounded set holds exactly the ids the bounded one has ever remembered |
| AgentLogsBounds.EmissionCount | src/lh_harness/agent_logs.py:374-385 | the bounded parser appends one extra call step for every completion whose id had been evicted, and nothing else |
| AgentLogsBounds.SameEmissionIff | src/lh_harness/agent_logs.py:374-385 | both parsers append the same steps, before the ring buffer drops any, if and only if no completed id had been evicted |
| AgentLogsBounds.EmittedIsClipped | src/lh_harness/agent_logs.py:448-456 | then they differ only in answers whose text had left the buffer |
| AgentLogsExact.TailIfRepeatsHaveLeft | src/lh_harness/agent_logs.py:307-386 | for any log of either format: once all repeated call steps have left the buffer, the bounded output is the last `k` steps of the unbounded one, kinds and ids included |
| AgentLogsExact.LastCallIsRemembered | src/lh_harness/agent_logs.py:374-385 | if the newest unbounded step is a call, the bounded parser still remembers its tool |
| AgentLogsExact.CodexIsTailIff | src/lh_harness/agent_logs.py:307-386 | for every Codex log and after each record: the bounded output is the tail of the unbounded one if and only if every repeated call step has left the buffer |
| AgentLogsExact.OpenCodeIsTailIf | src/lh_harness/agent_logs.py:639-658 | "if" for every OpenCode log |
| AgentLogsExact.OpenCodeIsTailIff | src/lh_harness/agent_logs.py:639-690 | both ways for every OpenCode log in which no record of an unfinished tool names a tool met before |
| AgentLogsTexts.RepeatsCanAgree | src/lh_harness/agent_logs.py:672-690 | an OpenCode log with repeated progress reports whose bounded output is the tail although a repeated call step is still in the buffer |
| AgentLogsTexts.SameLastText | src/lh_harness/agent_logs.py:448-456 | bounded or not, the parser has said the same last text |
| AgentLogsTexts.CodexAnswerKeepsItsTextIff | src/lh_harness/agent_logs.py:448-456 | after any record of any Codex log, an answer carries the text of the unbounded answer if and only if a text is among the buffered steps or nothing was said |
| AgentLogsTexts.OpenCodeAnswerKeepsItsTextIff | src/lh_harness/agent_logs.py:693-702 | the same for the other format |
| AgentLogsTexts.AnswerLosesItsText | src/lh_harness/agent_logs.py:448-456 | for every `k`, a log whose answer repeats its message in full, and nothing when bounded |
| AgentLogsBounds.CodexFewIdsIsExact | src/lh_harness/agent_logs.py:307-386 | a log with at most max(32, 4k) distinct tool ids is always shown exactly |
| AgentLogsBounds.OpenCodeFewIdsIsExact | src/lh_harness/agent_logs.py:639-658 | the same for the other format |
| AgentLogsBounds.EvictionRepeatsACall | src/lh_harness/agent_logs.py:374-385 | for every cap, a log one id longer on which the bounded output is not the tail of the full one |
| AskStore.ValidateFields | src/lh_harness/ask_store.py:168-206 | a declaration is accepted exactly when it has 1 to 8 valid fields with different names, which come back in order; otherwise the first fault of the first faulty item is reported |
| AskStore.LocalVault.Seal | src/lh_harness/ask_store.py:304-308 | sealing field by field adds or replaces exactly those fields of that ask |
| AskStore.LocalVault.Clear | src/lh_harness/ask_store.py:322-330 | removes that field of that ask and tells whether it was there |
| AskStore.LocalVault.Apply | src/lh_harness/ask_store.py:332-353 | refuses for the reasons of the original in their order, or deletes the sealed copy |
| AskStore.AskStore.RaiseAsk | src/lh_harness/ask_store.py:797-808 | the ask's new slot and the answer are those of `AskRecords.RaiseAsk`; no other ask changes |
| AskStore.AskStore.DeclareFields | src/lh_harness/ask_store.py:820-843 | the same for a redeclaration of fields |
| AskStore.AskStore.SplitValues | src/lh_harness/ask_store.py:865-872 | the submitted values sorted into bodies and secrets, or the verdict that one is invalid |
| AskStore.AskStore.CheckSubmit | src/lh_harness/ask_store.py:861-903 | the first refusal a submit meets before anything is written, or the values to write |
| AskStore.AskStore.Respond | src/lh_harness/ask_store.py:845-937 | the same for a submit: seal first, then one record update; `AskOutcomes` says what it leaves |
| AskStore.AskStore.ClearSecret | src/lh_harness/ask_store.py:939-958 | the same for clearing a secret |
| AskStore.AskStore.ApplySecret | src/lh_harness/ask_store.py:961-1005 | the same for applying a secret, a failing vault included |
| AskRuns.SealedViewsAgree | src/lh_harness/ask_store.py:731-743 | in agreement, both branches of `_sealed` return the same map |
| AskRuns.DeclareKeepsAgreement | src/lh_harness/ask_store.py:820-843 | redeclaring fields keeps record and vault in agreement, with the secret tools on or off |
| AskRuns.RespondKeepsAgreement | src/lh_harness/ask_store.py:845-937 | so does a submit, accepted, refused or failed in the vault |
| AskRuns.ClearKeepsAgreement | src/lh_harness/ask_store.py:939-958 | so does clearing a secret |
| AskRuns.ApplyKeepsAgreement | src/lh_harness/ask_store.py:961-1005 | so does applying one |
| AskRuns.RecordAndVaultAgree | src/lh_harness/ask_store.py:634-1005 | in every reachable state the sealed fields are the same in vault and record, each is an effective secret field, and target and length agree everywhere |
| AskRuns.SealedIsClearable | src/lh_harness/ask_store.py:939-958 | no sealed secret is orphaned: in every reachable state clearing it is accepted and removes it from both sides |
| AskRuns.VaultHoldsLastSubmit | src/lh_harness/ask_store.py:873-908 | over any run the vault holds, for each field, the value and target submitted last |
| AskRuns.AppliedWhereSubmitted | src/lh_harness/ask_store.py:961-1005 | a successful apply writes to the target shown to the last submitter of the field |
| AskRuns.VaultTargetNeverDiffers | src/lh_harness/ask_store.py:332-341 | through the store, the vault's refusals for a missing or different target are unreachable |
| AskRuns.AppliedMetaIsNeverCorrupt | src/lh_harness/ask_store.py:1000-1002 | an applied secret always has metadata to update, never a plain text |
| AskRuns.VaultApplyHidesSecrets | src/lh_harness/ask_store.py:332-353 | vaults that differ only in values answer an apply alike |
| AskRuns.StepHidesSecrets | src/lh_harness/ask_store.py:761-791 | operations that differ only in secret values of equal length and validity give the same answer and leave the same record |
| AskRuns.RunsHideSecrets | src/lh_harness/ask_store.py:634-1005 | noninterference: so do whole runs, histories and public rows included |
| AskOutcomes.SubmitIsRecorded | src/lh_harness/ask_store.py:861-929 | after an accepted submit each submitted body field holds its text, "" for null; each submitted secret holds metadata with length, target, actor and time, and is sealed with its value and target; every other field keeps its answer and its sealed value |
| AskOutcomes.SubmitClosesAsk | src/lh_harness/ask_store.py:912-937 | it closes the ask in the actor's name; the history grows by "respond", after "reopen" for a closed ask that is not live, and keeps its newest 200 entries |
| AskOutcomes.SubmitStateIsClosed | src/lh_harness/ask_store.py:111-116 | the state it writes counts as closed for the next submit |
| AskOutcomes.SubmitAcceptedIff | src/lh_harness/ask_store.py:858-911 | a submit is accepted exactly when its names are declared, its values valid, its targets those declared and given for every secret, some field is answered afterwards and every required one, unless sealing a secret fails; a refused one changes nothing |
| AskOutcomes.RecordHoldsLastBody | src/lh_harness/ask_store.py:634-1005 | over any run the record holds, for each body field, the text submitted last |
| AskOutcomes.PublicShows | src/lh_harness/ask_store.py:761-791 | a row shows bodies of declared fields in full, and of a secret field its metadata at most |
| AskOutcomes.RowShowsRecord | src/lh_harness/ask_store.py:761-791 | the row that an operation answers with is that of the record it leaves |
| AskOutcomes.RaiseOutcome | src/lh_harness/ask_store.py:797-808 | a new ask is open, unanswered and noted; only a free id that is not live gets one |
| AskOutcomes.DeclareOutcome | src/lh_harness/ask_store.py:820-843 | a redeclaration is accepted exactly when every sealed field stays secret and keeps its target; then the answers survive whose field stays, except those of a secret field that becomes a body field |
| AskOutcomes.ClearOutcome | src/lh_harness/ask_store.py:939-958 | a clear is accepted exactly for a secret field with a sealed value or an answer, and removes both and nothing else |
| AskOutcomes.ApplyOutcome | src/lh_harness/ask_store.py:961-1005 | an apply succeeds exactly when its target is allowed and declared, a value is sealed and the vault writes it; then the value is gone from the vault and the metadata says where it went; a failure in the vault keeps both and reopens the ask; any other refusal changes nothing |
| AskOutcomes.ApplyFailureIsNoted | src/lh_harness/ask_store.py:985-999 | the reason of a failed apply is in the error, at the end of the history and, unless it is longer than the column, at the end of the evidence |
| AskOutcomes.DefaultFieldsAre | src/lh_harness/ask_store.py:119-130 | a record without declared fields takes a response, and a secret exactly when its kind reads CREDENTIAL |
| AskRedaction.RedactHidesIff | src/lh_harness/ask_store.py:254-259 | a value without blanks and square brackets is hidden in every text if and only if it is no part of the word "redacted" |
| AskRedaction.RedactKeeps | src/lh_harness/ask_store.py:254-259 | a short text on one line that does not hold the value is shown as it is |
| AskRedaction.ApplyNeverShowsTheValue | src/lh_harness/ask_store.py:961-999 | a failed apply of a value of the target's format leaves an error and a history entry without the value, whatever the writer reported |
| SdlcRedact.RedactBody | scripts/sdlc_export.py:261-278 | the five passes in order, and the count of each; `SdlcText` and `SdlcFound` say what they leave |
| SdlcRedactClean.SubstituteCuts | scripts/sdlc_export.py:261-276 | what a pass keeps and what it cuts, in order, is the input; no cut splits a run of hex digits |
| SdlcRedactClean.OutputIsClean | scripts/sdlc_export.py:286-303 | a pattern that matches at no kept character of the input matches nowhere in the output |
| SdlcRedactClean.PassCleansItself | scripts/sdlc_export.py:261-276 | a pass leaves no match of its own pattern |
| SdlcRedactClean.PassKeepsClean | scripts/sdlc_export.py:261-276 | no pass creates a match of another pattern |
| SdlcRedactScan.CredentialScript | scripts/sdlc_export.py:253-258 | the credential pass conserves its input outside the cuts and cuts exactly the values that are not placeholders |
| SdlcRedactScan.NoNewCredential | scripts/sdlc_export.py:240-258 | no credential starts in the output where none starts in the input |
| SdlcRedactScan.OnlyPlaceholdersLeft | scripts/sdlc_export.py:247-258 | behind the credential pass, every credential match holds a placeholder |
| SdlcRedactScan.PassCountsOccurrences | scripts/sdlc_export.py:261-276 | a pass counts exactly what a scan of its input would find |
| SdlcRedactScan.RedactedScansClean | scripts/sdlc_export.py:261-303 | for every text, the second scan reports nothing on the redacted text |
| SdlcRedactScan.NothingFoundIffNothingCounted | scripts/sdlc_export.py:261-303 | the scan finds nothing in a text exactly when redacting it counts nothing, and then the text comes back unchanged |
| SdlcRedactScan.RedactionIsIdempotent | scripts/sdlc_export.py:261-278 | redacting twice is redacting once, and the second time nothing is counted |
| SdlcText.CleanMeans | scripts/sdlc_export.py:222-237 | the four patterns find exactly what they are meant to, character by character: "sk-" and 20 letters or digits, 48 hex digits between others, a private key header, and a header with a footer behind it |
| SdlcText.NoSecretIsLeft | scripts/sdlc_export.py:261-278 | the redacted text of any input holds no key, no token and no private key header, in those terms |
| SdlcText.NoBlockIsLeft | scripts/sdlc_export.py:222-225 | behind the first pass no header is followed by a footer: the lines between the two are gone |
| SdlcText.CutsAreSecrets | scripts/sdlc_export.py:261-276 | every cut of a pass is a whole secret of its kind, replaced by the mark of that kind |
| SdlcCredentials.PlaceholderIff | scripts/sdlc_export.py:247-250 | the placeholders are the words listed, in any case |
| SdlcFound.NoneFoundIff | scripts/sdlc_export.py:297-303 | the scan reports no credential exactly when the search from left to right meets no live one |
| SdlcFound.LiveLeftIff | scripts/sdlc_export.py:253-276 | for every text, the last pass leaves a live credential if and only if the opening quote of one closes a placeholder that the search has found |
| SdlcFound.CredentialLeftIff | scripts/sdlc_export.py:261-278 | so for the whole redactor, on the text before its last pass |
| SdlcFound.LeftIsOverlooked | scripts/sdlc_export.py:253-276 | every live credential in a redacted text opens with the closing quote of a placeholder |
| SdlcFound.QuoteUsedTwice | scripts/sdlc_export.py:240-258 | a text with a live credential that comes back as it was |
| SdlcFound.CredentialCutsAreLive | scripts/sdlc_export.py:253-276 | every cut of the last pass is the value of a live credential that the search finds, replaced by the mark |
| SdlcFound.UnchangedIff | scripts/sdlc_export.py:261-278 | a text comes back unchanged if and only if it holds no key, token or private key header and no live credential that the search finds |
| ShadowDates.RecoverStamps | scripts/compare_shadow.py:268-296 | the stamp loop computes the recovered instants and counts the segments |
| ShadowDates.StepIsReadBackIff | scripts/compare_shadow.py:281-296 | one step is recovered exactly when it is readable: same day within bounds, next day, or one day back, each with its limit |
| ShadowDates.LogIsReadBackIff | scripts/compare_shadow.py:351-367 | a log of whole minutes is recovered from its `HH:MM` if and only if it starts on the given date and every step is readable |
| ShadowDates.OrderlyLogIsReadBack | scripts/compare_shadow.py:95-100 | steps of at most half an hour back and half a day forward, never more than a day behind the latest day, are always recovered |
| ShadowVerdicts.EntryReport.constructor | scripts/compare_shadow.py:553-570 | a report starts unjudged, with its shadow decision absent |
| ShadowVerdicts.EntryReport.Classify | scripts/compare_shadow.py:673-803 | from whatever the report holds, the verdict and its basis are those of the classification function, the branch for an undecided entry with a shadow decision included |
| ShadowVerdicts.CompareEntry | scripts/compare_shadow.py:615-647 | a new report, classified once unless the entry is a probe |
| ShadowVerdicts.UndecidedPhantomIff | scripts/compare_shadow.py:699-706 | an undecided entry is called a phantom exactly when its report already holds a shadow launch |
| ShadowVerdicts.UndecidedIsNeverPhantom | scripts/compare_shadow.py:619-645 | from the initial report that never happens |
| ShadowVerdicts.LatestIsMaximal | scripts/compare_shadow.py:650-655 | the basis is the first of the latest events |
| ShadowVerdicts.ExtensionKeepsPast | scripts/compare_shadow.py:713-715 | inserting later records leaves the events at or before the decision, and the probe test, unchanged |
| ShadowVerdicts.LaterObservationsFlipOnlyPcOnly | scripts/compare_shadow.py:588-647 | records after the launcher's decision change a verdict only from pc-only to unobserved-race; a verdict with a basis never flips |
| ShadowVerdicts.PhantomIff | scripts/compare_shadow.py:588-647 | phantom is exactly a shadow launch against a hold; shadow-only is exactly an undecided entry |
| ShadowVerdicts.MissedIff | scripts/compare_shadow.py:775-800 | missed is exactly a launch against a skip that names no occupying run and uses no safety wording |
| ShadowMeanings.DecisionIsLatest | scripts/compare_shadow.py:573-577 | the launcher's decision on an entry is one of its records on that name in the window, and none of them is later |
| ShadowMeanings.BasisIsLatestKnown | scripts/compare_shadow.py:713-722 | the basis is a shadow record on the entry at or before the compare instant, and none of those is later; there is none exactly when there is no such record |
| ShadowMeanings.AgreeIff | scripts/compare_shadow.py:766-770 | agree is exactly a launch on both sides, or a hold against a skip |
| ShadowMeanings.SelfOccupiedIff | scripts/compare_shadow.py:775-784 | self-occupied is exactly a launch against a skip that names the launched run |
| ShadowMeanings.MoreConservativeIff | scripts/compare_shadow.py:785-800 | more conservative is exactly a launch against a skip that names another run or uses safety wording |
| ShadowMeanings.UnseenIff | scripts/compare_shadow.py:713-762 | pc-only is exactly a decision on an entry without any shadow record, an unobserved race one with later records only |
| ShadowMeanings.OccupierIs | scripts/compare_shadow.py:520-524 | the occupier is the run behind the first "has active run" that names one, or "" |
| NonceWindow.NonceCache.Use | src/lh_harness/caller_auth.py:304-314 | the new table and the verdict are those of `UseNonce` |
| NonceWindow.UseMeans | src/lh_harness/caller_auth.py:290-314 | a nonce is accepted exactly when it is not live and the live entries leave room; no unexpired entry is dropped; the table stays within its maximum |
| NonceWindow.EntryStays | src/lh_harness/caller_auth.py:304-314 | over any run an accepted nonce stays in the table until it expires |
| NonceWindow.AcceptancesAreFarApart | src/lh_harness/caller_auth.py:304-314 | two acceptances of one nonce lie at least 330 seconds apart |
| NonceWindow.ReplayOnlyAtOneInstant | src/lh_harness/caller_auth.py:339-350 | one signed request passes twice at most at first + 330 with its stamp 30 seconds in the future at first |
| NonceWindow.ReplayPassesIff | src/lh_harness/caller_auth.py:339-350 | replayed at a later time, it passes exactly there |
| NonceWindow.TableIsBounded | src/lh_harness/caller_auth.py:306-309 | over any run the table never exceeds its maximum |
| EnqueueRate.EveryWindowIsBounded | src/lh_harness/caller_auth.py:449-486 | every closed window of 3600 seconds, wherever it starts, holds at most the ceiling of a caller's admitted entries |
| EnqueueRate.AdmittedIffEnoughLeft | src/lh_harness/caller_auth.py:479-486 | for any ceiling and any number of entries in the window, a later attempt is admitted exactly when more of them have left than the window holds above the ceiling |
| EnqueueRate.AdmittedIffOldestLeft | src/lh_harness/caller_auth.py:479-489 | at the ceiling, that is when the oldest entry has left the window |
| EnqueueRate.RefusedUntilOldestLeaves | src/lh_harness/caller_auth.py:479-489 | a refused caller stays refused at least until the oldest entry has left |
| EnqueueRate.RetryAdvice | src/lh_harness/caller_auth.py:487-492 | for every refusal the advised wait is right to one second, and following it succeeds if and only if enough entries have left by then; at the ceiling, unless the true wait is whole and positive; never under a zero ceiling |
| EnqueueRate.RefusedIff | src/lh_harness/caller_auth.py:473-492 | an attempt is refused exactly when the caller's own entries of the last 3600 seconds reach the ceiling |
| EnqueueRate.OthersDoNotCount | src/lh_harness/caller_auth.py:479-483 | queues with the same entries of the caller give the same answer, whatever others have queued |
| TomlWrite.Writer.WriteEntries | docker/materialize_node_config.py:88-89 | appends one line per entry that is no table |
| TomlWrite.Writer.WriteTable | docker/materialize_node_config.py:79-92 | appends header, entries and sub-tables of a table and of all tables below it |
| TomlWrite.WriteToml | docker/materialize_node_config.py:95-104 | the text printed for a config |
| TomlLines.EscapedCons | docker/materialize_node_config.py:67-69 | the two replacements in a row escape each character once |
| TomlLines.ValueIsReadBack | docker/materialize_node_config.py:60-76 | every scalar and every list of scalars is read back from its text |
| TomlLines.LineIsReadBack | docker/materialize_node_config.py:87-89 | every header and every entry is read back from its line |
| TomlText.PrintedIsRun | docker/materialize_node_config.py:95-104 | reading the printed text goes through exactly the lines that were to be shown |
| TomlTrip.TableRun | docker/materialize_node_config.py:79-92 | going through a table's lines adds exactly that table to its parent, whether or not it has a header of its own |
| TomlTrip.DisorderedRun | docker/materialize_node_config.py:97-101 | a top-level scalar behind a table is missing from the top level that is read back |
| TomlTrip.RoundTripIff | docker/materialize_node_config.py:95-104 | reading what was printed gives back the same tree if and only if no top-level scalar follows a table |
| TomlTrip.PrintedDeterminesTree | docker/materialize_node_config.py:95-104 | configs that print alike denote the same tree |
| DenyGlob.FindFirst | src/lh_harness/auditor_verify.py:671 | the first occurrence, or -1 when there is none |
| DenyGlob.GlobMatches | src/lh_harness/auditor_verify.py:653-678 | with a `*` in the pattern, true if and only if the glob denotes the target |
| DenyGlob.FirstIsBest | src/lh_harness/auditor_verify.py:670-674 | a part taken at its first occurrence leaves a match whenever any occurrence does |
| DenyGlob.SplitDenotes | src/lh_harness/auditor_verify.py:662-670 | cutting the target at the parts of the split pattern is the glob's meaning |
| DenyGlob.DenyRuleMatches | src/lh_harness/auditor_verify.py:612-650 | true if and only if the rule is well formed with a non-empty glob that denotes the trimmed, non-empty command |
| DenyGlob.IsDenied | src/lh_harness/auditor_verify.py:681-696 | the first rule that refuses the command, or none when no rule does |
| DenyGlob.RulePatternIff | src/lh_harness/auditor_verify.py:625-637 | the glob of a rule is what stands between "Bash(" and ")", with nothing but blanks around the two |
| DenyGlob.RefusesIff | src/lh_harness/auditor_verify.py:612-650 | a rule refuses a command exactly when it is "Bash(glob)" and the glob denotes the command, each without the blanks around it |
| WriteIntent.GhApiWriteIntent | src/lh_harness/auditor_verify.py:419-455 | the intent found by the loop is that of the collected methods and flags |
| WriteIntent.MethodsPersist | src/lh_harness/auditor_verify.py:422-435 | the methods read from an argument list stay, in order, when arguments follow |
| WriteIntent.RefusalPersists | src/lh_harness/auditor_verify.py:490-557 | a refused invocation that is not unfinished stays refused whatever arguments follow |
| WriteIntent.UnfinishedCanBecomeARead | src/lh_harness/auditor_verify.py:503-530 | each unfinished invocation is refused, and some arguments turn it into a read |
| WriteIntent.RefusalIsFinalIff | src/lh_harness/auditor_verify.py:490-557 | a refusal is final exactly when the invocation is not unfinished |
| WriteIntentReads.AcceptedIff | src/lh_harness/auditor_verify.py:490-557 | a command line is taken for a read exactly when, empty words aside, it runs git without a word that carries a writing subcommand, or gh with a token-free `auth status`, with an `api` call that reads, or with a reading group without a writing leaf or flag |
| WriteIntentReads.SetMethodIsRead | src/lh_harness/auditor_verify.py:422-435 | a method given by `--method`, `-X` or a glued form is read, wherever it stands |
| WriteIntentReads.AcceptedCallReads | src/lh_harness/auditor_verify.py:436-455 | so an accepted api call names no method but GET, HEAD and OPTIONS |
| Contention.SortStrings | src/lh_harness/contention.py:86 | the strings of a set in strictly ascending order |
| Contention.TierIff | src/lh_harness/contention.py:42-56 | two runs share a tree, else a git directory, else a repository on one known branch or not, exactly when their identities agree on it; an identity that is not given is never shared |
| Contention.GroupKeyIff | src/lh_harness/contention.py:59-66 | two pairs of the same kind share a group exactly when they share the common directory, else the repository |
| Contention.GroupPairs | src/lh_harness/contention.py:85-115 | the groups before the cuts: one for each key of a qualifying pair, with both runs of each of its pairs and no others, at the highest tier among them |
| Contention.DetectContention | src/lh_harness/contention.py:69-156 | the list is the first `max_groups` of all groups by falling severity and key, each with the first `max_members` of its run ids |
| Contention.QualifyingPairIsCovered | src/lh_harness/contention.py:89-115 | every qualifying pair lies in a group at least as severe |
| Contention.ThresholdSelectsGroups | src/lh_harness/contention.py:96-97 | raising the threshold keeps exactly the groups that reach it, with severity unchanged and no new member |
| Contention.ThresholdIsPrefix | src/lh_harness/contention.py:154-156 | raising the threshold yields a prefix of keys and severities, also behind the `max_groups` cut |
| Contention.ListIsDetermined | src/lh_harness/contention.py:154-156 | the active runs and the limits determine the whole list: its groups, their order and their members |
| Contention.UnknownGroupIff | src/lh_harness/contention.py:98-105 | for any active runs, the members of the group `unknown` are exactly the runs of the qualifying pairs without repository id and common directory on either side |
| Contention.UnrelatedPathsShareOneGroup | src/lh_harness/contention.py:98-105 | the runs of two unrelated workspaces outside git fall into one group of the highest severity |
| MergeOrder.Orderer.EmitOne | scripts/overseer/format_prs.py:97-104 | one call of `emit` appends what its recursion says, and both lists stay equal |
| MergeOrder.ByHead | scripts/overseer/format_prs.py:90 | the last pull request of the group with that head branch, or none exactly when no head branch is that one |
| MergeOrder.ComputeMergeOrder | scripts/overseer/format_prs.py:82-108 | nothing exactly when no base branch is a head branch of the group; otherwise a permutation of the group with each behind the last one whose head branch is its base branch, and moved ahead only as an ancestor of an earlier one |
| MergeOrder.FinishedIsAcyclic | scripts/overseer/format_prs.py:97-104 | a recursion that ends proves that no chain of bases closes |
| MergeOrder.AcyclicIffRanked | scripts/overseer/format_prs.py:97-104 | no pull request is its own ancestor if and only if the pull requests can be ranked above their bases |
| MergeOrder.EndsIffAcyclic | scripts/overseer/format_prs.py:97-104 | the recursion ends if and only if no pull request is its own ancestor |
| MergeOrder.OwnBaseNeverEnds | scripts/overseer/format_prs.py:97-104 | on a pull request whose base is its own head the recursion never ends |
| MergeOrder.OrderIsMergeOrder | scripts/overseer/format_prs.py:82-89 | every finished order on acyclic bases is a merge order |

## Left out

- SdlcFound.LiveLeftIff: is about the text given to the last pass; what the passes before it cut can bring a doubly used quote about or take it away.
- AskRedaction.RedactHidesIff: values with blanks or square brackets are left out; a blank that is collapsed, or a bracket of the mark, can bring one about.
- EffectLeaseStore.LeaseGate.Check: is one atomic call; the interleavings of its separate database steps are in `EffectLeaseRuns`.
- EffectLeaseRuns.EpochCountsTenures: and the other fencing theorems speak of one incarnation of a family, because a release starts the numbering over; `EffectLeaseTenures` says what happens across releases.
- AgentLogsExact.CodexIsTailIff: compares answers without their text, which may have left the ring buffer; `AgentLogsTexts.CodexAnswerKeepsItsTextIff` says when it has.
- AskStore.ValidateFields: takes items whose keys and value types are those of a field; the refusals of other shapes are not modelled.
- NonceWindow.EntryStays: and the theorems on replays take a clock that never runs back.
- ShadowDates.LogIsReadBackIff: takes a fixed offset from UTC; daylight saving and an `HH:MM` that is no time of day, on which the original raises, are not modelled.
- TomlTrip.RoundTripIff: covers bare keys, booleans, integers and strings without control characters, as the printer's escaping does; floats are not modelled.
- MergeOrder.ComputeMergeOrder: requires that no pull request is its own ancestor, because the original does not return otherwise.
- SQLite, files, locks, atomic renames, file modes and crashes: each transaction or store operation is one step; an exclusive lock serializes the operations on one ask.
- Clocks and minted ids are parameters; instants are reals or whole seconds instead of floats.
- Hashes and signatures: a signature check is a verdict that stays the same for the same request; contention ids are not modelled.
- JSON is taken to be read back as written; unreadable receipts and records are not modelled.
- The caller and pair maps of the lease gate, which `check` does not read, and the two errors of the lease that are never raised.
- The helper vault behind a separate user and a vault without a writer; the local vault's writer is an arbitrary verdict, and the text of a failed seal arrives redacted.
- AskOutcomes.DefaultFieldsAre: upper-cases ASCII letters only; a kind is checked to hold no others when an ask is raised.
- The syntax of ask ids, actors, columns and dates; the token patterns, whose verdict on a text is an input; which of several invalid values of a submit is named; the order of field names in a history entry.
- The payloads of tool steps (commands, diffs, images) are opaque text; a reasoning summary that is no list is not modelled; the parsers for two further log formats, one of which drops repeated texts and so is no suffix of its own unbounded form.
- Bytes that are no valid UTF-8: the redactor and the scanner work on texts of Unicode scalar values. Bundle writing, file classification and backup names of the export.
- The TOML reader is not a full TOML v1.0.0 parser: it does not reject a repeated header, which the printer never emits.
- The config overlays written before printing, and reading them from the environment.
- Upper-casing of HTTP methods outside ASCII, except for the two letters that upper-case into ASCII: any other method is refused either way.
- Shell quoting and the list of write spellings; the auditor's GitHub client.
- The text of verdict details, the trio notes and the tables of the comparison script; the parsing of launcher and shadow log lines other than their stamps and skip reasons.
- Requeued entries, which inherit their caller, and a queue that cannot be read, in the hourly ceiling.
- Negative limits on groups and members, and the names of severities, which are their indices here.
- HTTP and MCP wiring, telemetry, configuration loading, the command line and the frontend.
