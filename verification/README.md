# Verification of the authentication daemon and its PAM client

The daemon (Go) runs authentication sessions: factors such as passwords, fingers or faces
report statuses, a controller folds them into a verdict, and every failure counts towards a
lock-out. The PAM client (C) walks the factors of a session one after another, driven by the
status signals of the daemon. This project models the stateful parts and proves what they
keep over whole runs. `dafny verify dfyconfig.toml` checks all of it.

- **Lock-out** (`limits.dfy`, `limit_object.dfy`, `limit_table.dfy`, `limit_manager.dfy`,
  `late_restart.dfy`).
  The daemon lets locks expire lazily: nothing happens when a period is over, the record is
  tidied by whichever call looks at it next, even a query. The *ledger* is a function of the
  history in which queries leave no trace. Lazy records refine ledgers, one limit at a time
  and for the whole table of shared objects; queries are transparent; a saved and reloaded
  table is bisimilar to the one that never restarted, whichever state files are found and even
  if the snapshot is older than the restart. What the rules come to is also said in plain numbers.
- **Verdicts** (`controllers.dfy`, `multi_factor.dfy`, `normal_verify.dfy`, `mfa_config.dfy`).
  What the two controllers should answer is written once, over the history of reports. Each
  controller, with its counters, masks and maps walked in arbitrary order, is proved to send
  and update exactly the transcript of that history. The selection of the configuration by
  priority yields the distinct factors on which the counters rest.
- **Accounting** (`accounting.dfy`) joins controller, flags, table and lazy limits: what a
  session leaves of a limit is a function of the reports of its factor.
- **Client and protocol** (`factor_order.dfy`, `pam_client.dfy`, `end_to_end.dfy`). The
  client's sort and walk, its attempt from the look at the password limit on, and the composed
  system: a queue of reports, a stream of signals, and any interleaving of factors, daemon,
  session, client and failing bus.
- **Password attempts** (`password_tx.dfy`, `password_starts.dfy`): session ids against results that arrive late, with
  starts and ends as finely interleaved as the code lets them.
- **Fingerprint readers** (`fingerprint_claim.dfy`, `finger_names.dfy`): several devices and
  a remembered claim behave as one desk; the list and map of finger names agree.
- **Biometric actions** (`action_table.dfy`): at most one action per caller and kind, and no
  channel is used after it was closed.
- **Token encryption** (`padding.dfy`): the padding of both languages, lifted to encryption
  and decryption over any invertible block cipher.

Where the code falls short of what one would expect, the model keeps the code and says exactly
when it does meet the expectation:

- In a session that accepts any one factor, a report that is neither success nor failure, such
  as an error of the face driver or the report that the password is unlocked again, makes the
  controller announce a standing success once more and lift every limit once more
  (`Accounting.OtherStatusesExactly`, `Accounting.LaterReportLiftsLimits`).
- A dynamic limit whose table goes from a longer period to a shorter one, a negative one being
  the longest, unlocks earlier after one more failure (`Limits.LocksEscalateExactly`).
- The period published for a dynamic limit that is not in force changes over a restart exactly
  if one is configured and the limit was lifted before the restart and not since
  (`Limits.RestartExportExactly`).
- A user opened since the last snapshot is unknown after a restart until opened again
  (`LateRestarts.LateAnswerDiffersExactly`).
- The 64-bit difference to the zero time overflows from 9 December 2046 on, and a configured
  period of more than 292 years wraps (`Limits.SixtyFourBitTimeExactly`).
- A start takes its id under a lock and reads it back outside, and the stored session may be
  another one by then. Overlapping starts can panic, give an older worker the newest id, or share
  an id (`PasswordStarts.OverwrittenSessionPanics`, `PasswordStarts.OldWorkerAdoptsId`,
  `PasswordStarts.OverlappingStartsShareAnId`). The order in which the starts take their steps
  decides each of these exactly (`PasswordStarts.PanicsExactly`, `PasswordStarts.IdsKeptExactly`,
  `PasswordStarts.IdsDifferExactly`), and exactly when a result can be heard that is not that of
  the one worker of the most recent start (`PasswordStarts.ResultsAreOwnExactly`).
- A result is still heard after the status Ended, until the id is invalidated
  (`PasswordAttempts.ResultHeardWhileEnding`).
- In a session that demands several factors an aggregate failure can be announced although no
  factor has failed, for instance when a password that passes unlocks another factor
  (`MultiFactor.FailureWithoutFailureExactly`, `MultiFactor.UnlockingFailsSession`).
- An aggregate failure does not decide the client. After an error, which fails the session but
  is not a failure of its factor, the client waits on (`EndToEnd.ClientWaitsExactly`,
  `EndToEnd.ErrorLeavesClientWaiting`). While nothing fails around it, it succeeds exactly if at
  some moment all factors had passed and none had failed (`EndToEnd.ClientSucceedsExactly`).
- With a repeated factor type the client could start factors without end
  (`PamClient.StartsBoundedExactly`). No session offers a repeated type, so in the composed
  system this does not happen (`EndToEnd.AddTxs`, `EndToEnd.WalkIsSound`).
- A claim that fails because the driver refuses it, or does not answer in time, has already cost
  the former holder its device; the hold survives exactly when the user of the claim is not known
  (`FingerprintClaims.FailedClaimKeepsHoldExactly`).
- With a configuration file whose list of fingers repeats a name, or lacks a finger that the map
  has, the list need not cover the reader's report (`FingerNames.CoversExactly`), and a deleted
  finger need not be gone (`FingerNames.DeletedExactly`).
- Padding to a block of 256 bytes or more can need a count that does not fit into a byte
  (`TokenEncryption.PaddingRoundTripExactly`).

Times are mathematical nanoseconds and the clock does not go back; the zero time lies before
every lock. The table of a dynamic limit is not empty. A report carries the status its factor
had when it was put into the queue, because the daemon queues a copy of the factor
(`service/authenticate/session/tx.go:136-154`). Strings that serve as constants, such as factor
types, are the constructors of a datatype with one constructor for all other strings.

## Model

| member | source | states |
|---|---|---|
| `AuthTypes.FlagDeterminesType` | service/authcommon/type.go:102-165 | the flag of a factor leads back to the factor for every factor that has one, and is never the aggregate flag |
| `AuthTypes.MaskMembership` | service/authenticate/session/multifactor_verify.go:159-169 | a bit test against a mask built from single-bit flags is membership in the list of flags |
| `AuthTypes.FlagsOnTheWire` | service/authcommon/type.go:17-28 | the bit of every factor, which the client writes down for itself (`misc/pam-module/common/common.h:71-79`) |
| `AuthTypes.CodesOnTheWire` | service/authenticate/session/status.go:5-20 | the statuses in the order of their codes, which the client writes down for itself (`misc/pam-module/common/common.h:83-94`) |
| `AuthTypes.FactorsOnTheWire` | service/authcommon/type.go:175-227 | the factors in order of priority, and the device each is put in with |
| `Limits.SixtyFourBitTimeExactly` | service/authenticate/limit.go:206-211 | for every period that is not negative, the exact condition under which the comparison in 64-bit nanoseconds is the ideal one: for locks while the period fits, for the zero time until 9 December 2046 |
| `Limits.VerdictOfHistory` | service/authenticate/limit.go:201-277 | on every clock-monotone run an attempt is refused exactly when the non-lazy ledger of failures, successes and resets refuses it, with the same unlock time; the published record is a function of the history, for idle dynamic limits too |
| `Limits.RunRefines` | service/authenticate/limit.go:201-277 | the lazily updated record stands for the ledger at every moment of every run |
| `Limits.QueriesAreTransparent` | service/authenticate/limit.go:230-251 | two runs that differ only in queries agree on every later verdict and published record |
| `Limits.ReplayErased` | service/authenticate/limit.go:230-251 | the ledger of a history is the ledger of the history without its queries |
| `Limits.RestartIsBisimilar` | service/authenticate/manager.go:620-680 | a limit restored from its failure count and lock time gives the verdicts of the limit that was never saved on every future run, and its records while it is in force or not dynamic |
| `Limits.RestartExportExactly` | service/authenticate/manager.go:620-680 | what a restored limit publishes after any further run is what it would have published without the restart if and only if it is in force, is not dynamic, has no configured period, or was lifted after the restart or never before it |
| `Limits.UnlimitedDynamicExportChanges` | service/authenticate/limit.go:220-228 | a dynamic limit that is not in force and was fully reset publishes another unlock period after a restart |
| `Limits.FailuresAreCounted` | service/authenticate/limit.go:253-263 | a dynamic or permanent limit counts every failure since the last event that clears it |
| `Limits.LockDatesFromLastFailure` | service/authenticate/limit.go:253-263 | while attempts are being counted as locked, the lock dates from the last failure |
| `Limits.FullResetAllows` | service/authenticate/manager.go:606-618 | after a full reset a limit stands at zero failures, unlocked, and lets the next attempt through |
| `Limits.LocksEscalateExactly` | service/authenticate/limit.go:265-277 | a later refusal of a dynamic limit, with no full reset in between, never carries a shorter lock than an earlier one if and only if the table is ordered, a period that locks for good being the longest |
| `Limits.DisorderShortens` | service/authenticate/limit.go:265-277 | for every disordered table, two refusals of which the later one has the shorter lock |
| `Limits.PermanentStaysPermanent` | service/authenticate/limit.go:265-277 | with an ordered table a limit that refuses for good does so until a full reset |
| `Limits.FixedLockout` | service/authenticate/limit.go:201-263 | in plain numbers: fewer failures than the maximum pass; at the maximum a fixed limit refuses for exactly its seconds, for good if they are negative, and the next failure afterwards is the first of a new count |
| `Limits.DynamicLockout` | service/authenticate/limit.go:230-277 | in plain numbers: a dynamic limit refuses after each failure from the maximum on for the seconds its table holds for it, the last entry for all that follow |
| `Limits.SuccessLifts` | service/authenticate/limit.go:220-228 | a success clears the count of a fixed limit, keeps that of a dynamic one, and lifts the lock unless it is for good |
| `LimitObjects.Limit.constructor` | service/authenticate/manager.go:520-548 | a new limit carries its configuration, no failures and no lock |
| `LimitObjects.Limit.Reset` | service/authenticate/limit.go:220-228 | clears the lock and, depending on the kind of limit, the unlock period or the failure count |
| `LimitObjects.Limit.TryReset` | service/authenticate/limit.go:201-218 | resets exactly when the limit is engaged and its definite lock period is exceeded |
| `LimitObjects.Limit.GetDynamicLimitTime` | service/authenticate/limit.go:265-277 | the table lookup is clamped at both ends: 0 below the limit, else an entry of the table |
| `LimitObjects.Limit.Allow` | service/authenticate/limit.go:230-251 | the verdict and the tidied record of the lazy step |
| `LimitObjects.Limit.Fail` | service/authenticate/limit.go:253-263 | counts one failure on the tidied record and locks at the limit |
| `LimitTables.TableRunRefines` | service/authenticate/manager.go:504-730 | on every run of the table every answer is the answer of the table of ledgers |
| `LimitTables.CellFollowsProjection` | service/authenticate/manager.go:555-618 | a limit that stays in the table has exactly the history of the calls that concern it |
| `LimitTables.PermissionIsIsolated` | service/authenticate/manager.go:555-618 | whether an attempt is let through depends only on the calls for that limit type, user and factor, and on those as the ledger says |
| `LimitTables.StaysWellFormed` | service/authenticate/manager.go:504-553 | every user keeps a limit for every type on every run |
| `LimitTables.UserListPrunesExactly` | service/authenticate/manager.go:476-497 | a change of the user list removes exactly the absent users and changes no other limit |
| `LimitTables.LoadListAnyOrder` | service/authenticate/manager.go:644-655 | loading the saved list of a user does not depend on its order |
| `LimitTables.LoadUndoesSave` | service/authenticate/manager.go:620-680 | loading what was saved, whatever the order of the lists, gives the saved table with only the unlock periods reread from the configuration |
| `LimitTables.RestartedTableIsBisimilar` | service/authenticate/manager.go:504-680 | a daemon that saves, restarts and loads answers every further run as the daemon that never restarted, whatever an older state file holds |
| `LimitTables.OlderFileServesBothTypes` | service/authenticate/manager.go:624-641 | from the older file, which knows no limit types, both limit types of a user get the same saved states |
| `LimitTables.PresentFileIsLoaded` | service/authenticate/manager.go:620-658 | a readable file of the present format is loaded, whatever the older one holds, and gives the saved table |
| `LimitTables.OtherFilesAreLoaded` | service/authenticate/manager.go:620-658 | of a refused file what could be decoded is loaded; without a usable file nobody is known |
| `LateRestarts.LateRestartIsBisimilar` | service/authenticate/manager.go:583-618 | a daemon restarted from its last snapshot, taken before the queries and openings since then, answers every further run as the one that never restarted, if users opened since are opened again before they are asked about |
| `LateRestarts.LateAnswerDiffersExactly` | service/authenticate/manager.go:555-568 | without that, the answers differ exactly for the users opened since the snapshot |
| `LateRestarts.OpenedUserIsForgotten` | service/authenticate/manager.go:504-568 | a user who is opened before anything is saved is let through, and refused after a restart |
| `LimitTables.ResetUserAllows` | service/authenticate/manager.go:606-618 | a reset of a user leaves every limit of that user at zero failures and allowed |
| `LimitTables.UnconfiguredIsUnlimited` | service/authenticate/manager.go:541-552 | a type without a configuration element gets the rule for the types left out |
| `LimitTables.UnconfiguredIsPermittedExactly` | service/authenticate/manager.go:504-568 | on every run of a daemon without saved states, an opened user is let through at every moment with a type the configuration leaves out, if and only if it is one of the seven that have a limit |
| `LimitTables.UnknownIsRefused` | service/authenticate/manager.go:555-568 | a user who has not been opened is let through with nothing |
| `LimitTables.AnswersAgree` | service/authenticate/manager.go:700-730 | the query and the published limits say the same of every limit, and every limit of the user is published |
| `LimitManagers.LimitManager.constructor` | service/authenticate/manager.go:450-456 | an empty table under a configuration |
| `LimitManagers.LimitManager.AllowTx` | service/authenticate/manager.go:555-568 | performs the query step of the table on shared objects and returns its answer; a missing limit refuses |
| `LimitManagers.LimitManager.Fail` | service/authenticate/manager.go:570-587 | performs the failure step on exactly one limit object |
| `LimitManagers.LimitManager.Success` | service/authenticate/manager.go:589-604 | performs the success step on exactly one limit object |
| `LimitManagers.LimitManager.ResetLimits` | service/authenticate/manager.go:606-618 | resets every limit of the user and no other |
| `LimitManagers.LimitManager.ConfiguredLimits` | service/authenticate/manager.go:524-539 | one fresh object per configured type, a later element replacing an earlier one |
| `LimitManagers.LimitManager.BuildEntry` | service/authenticate/manager.go:519-552 | one fresh object per type, those left out of the configuration unlimited |
| `LimitManagers.LimitManager.InitLimitsByUsername` | service/authenticate/manager.go:504-553 | opens the user with fresh limits and is a no-op for a user that is there already |
| `LimitManagers.LimitManager.GetLimits` | service/authenticate/manager.go:700-730 | publishes every limit of the user and performs the query step on each |
| `LimitManagers.LimitManager.UserListChanged` | service/authenticate/manager.go:476-500 | removes the absent users and then resets the nameless local user |
| `LimitManagers.LimitManager.GetLimitStates` | service/authenticate/manager.go:661-680 | lists type, failure count and lock time of every limit of every user |
| `LimitManagers.LimitManager.LoadLimitStates` | service/authenticate/manager.go:641-658 | rebuilds the table from the saved lists |
| `LimitManagers.LimitManager.LoadStateFiles` | service/authenticate/manager.go:620-658 | loads the newer file, or the older one for both limit types when the newer is missing, or nothing; of a newer file with ill-typed values, what could be decoded |
| `MfaConfig.IsValidConfig` | service/multifactor/config.go:173-201 | accepts exactly the non-empty configurations of a known application whose factors are known and all different |
| `MfaConfig.ValidConfigIsConfigurable` | service/multifactor/config.go:64-80 | the factors of a valid configuration are recognised and pairwise distinct, and the flag list of the controller is theirs |
| `MfaConfig.GetAuthTypeList` | service/multifactor/multifactor.go:180-186 | the flags of the configured factors, in order |
| `MfaConfig.LoadOrderIrrelevant` | service/multifactor/multifactor.go:100-141 | the loaded configurations do not depend on the order of the files when no two files for one application tie |
| `MfaConfig.StoresLoaded` | service/multifactor/multifactor.go:120-137 | an accepted file keeps the map at the first file of highest priority for every application |
| `MfaConfig.MFAConfig.LoadConfigFile` | service/multifactor/multifactor.go:100-141 | after any run of loads the map holds, for every application, the first accepted file of highest priority |
| `MfaConfig.MFAConfig.GetConfig` | service/multifactor/multifactor.go:162-174 | the entry of the application, else the entry for all, whatever the order of the walk over the map; what is returned is valid |
| `MfaConfig.SpellingsExactly` | service/multifactor/config.go:64-80 | the factor each spelling in a file stands for |
| `MfaConfig.AnswerOfFiles` | service/multifactor/multifactor.go:100-174 | from the files to the answer: an application gets the first accepted file of the highest priority for it, else that for all applications |
| `Controllers.ProgressChangesNothing` | service/authenticate/session/multifactor_verify.go:141-154 | a report of progress (verifying, prompt, locked, ended, started) is passed on and changes neither verdict nor limits, after any history and in both kinds of session |
| `Controllers.OthersBecomeLatest` | service/authenticate/session/password_tx.go:62-68 | every other report becomes the latest word of its factor and of no other |
| `Controllers.MultiVerdictExactly` | service/authenticate/session/multifactor_verify.go:171-185 | in terms of the last words of the factors: success if each passed, failure if each has spoken and one did not pass |
| `Controllers.SingleVerdictExactly` | service/authenticate/session/normal_verify.go:126-151 | in terms of the last words of the factors: success if one passed, failure if one failed and no typed factor is awaited after one was used |
| `Controllers.OwnUpdatesExactly` | service/authenticate/session/manager.go:561-580 | the limit update of each status of each factor and of the aggregate |
| `MultiFactor.MaskSelectsFactors` | service/authenticate/session/multifactor_verify.go:187-205 | the bit test of setResult holds exactly for the configured factors, so a missing map entry is never touched |
| `MultiFactor.AllSetByCount` | service/authenticate/session/multifactor_verify.go:171-174 | the counter reaches the size of the map exactly when no entry is unset |
| `MultiFactor.MapVerdictIsVerdict` | service/authenticate/session/multifactor_verify.go:171-185 | the verdict on the map is the verdict on the history: success when all latest results are successes, failure when all are set and one is not |
| `MultiFactor.ReflectsStep` | service/authenticate/session/multifactor_verify.go:187-205 | a counted report changes the entry of its own factor and no other |
| `MultiFactor.WalkResults` | service/authenticate/session/multifactor_verify.go:176-184 | the walk over the map gives the same verdict in every order |
| `MultiFactor.MultiFactorVerify.CheckTx` | service/authenticate/session/multifactor_verify.go:159-169 | the mask is the bitwise or of the configured flags |
| `MultiFactor.MultiFactorVerify.SetExpectResult` | service/authenticate/session/multifactor_verify.go:231-238 | establishes the invariant: every factor unset and the counters at zero and the number of factors |
| `MultiFactor.FailureWithoutFailureExactly` | service/authenticate/session/multifactor_verify.go:141-154 | in a session in which no factor fails, an aggregate failure is announced if and only if, when some report counted, all factors had reported and the latest counted report of one was neither success nor failure |
| `MultiFactor.UnlockingFailsSession` | service/authenticate/session/manager.go:157-168 | a password that passes and so unlocks the finger makes the daemon announce the failure of the session |
| `MultiFactor.MultiFactorVerify.SetResult` | service/authenticate/session/multifactor_verify.go:187-205 | sets the entry of a configured factor, counts it once and keeps counters and map in step |
| `MultiFactor.MultiFactorVerify.ClearResult` | service/authenticate/session/multifactor_verify.go:207-219 | unsets the entry of a configured factor and keeps counters and map in step |
| `MultiFactor.MultiFactorVerify.GetVerifyResult` | service/authenticate/session/multifactor_verify.go:171-185 | returns the verdict of the map |
| `MultiFactor.MultiFactorVerify.Judge` | service/authenticate/session/multifactor_verify.go:145-147 | after a counted report the verdict is that of the history of reports |
| `MultiFactor.MultiFactorVerify.Handle` | service/authenticate/session/multifactor_verify.go:141-154 | one report extends what was sent and updated by exactly the response the history demands |
| `MultiFactor.MultiFactorVerify.ListenResultCh` | service/authenticate/session/multifactor_verify.go:117-157 | for every queue of reports everything sent and updated is the transcript of that history |
| `NormalVerifies.VerdictOnMaps` | service/authenticate/session/normal_verify.go:126-151 | the verdict on the two maps is the verdict on the history: success if some latest status is success, else failure if one is failure and no keyboard factor is outstanding |
| `NormalVerifies.NormalVerify.InitResultMap` | service/authenticate/session/normal_verify.go:108-112 | every factor offered starts without a status |
| `NormalVerifies.NormalVerify.InitInputMap` | service/authenticate/session/normal_verify.go:28-34 | every keyboard factor starts as not reported |
| `NormalVerifies.NormalVerify.AddTxStatus` | service/authenticate/session/normal_verify.go:114-124 | both maps follow a counted report |
| `NormalVerifies.NormalVerify.AdjudgeFinalResult` | service/authenticate/session/normal_verify.go:126-151 | returns the verdict of the history in whatever order the two maps are walked |
| `NormalVerifies.NormalVerify.Handle` | service/authenticate/session/normal_verify.go:176-196 | one report extends what was sent and updated by exactly the response the history demands |
| `NormalVerifies.NormalVerify.ListenResultCh` | service/authenticate/session/normal_verify.go:157-198 | for every queue of reports everything sent and updated is the transcript of that history |
| `Accounting.UpdateLimit` | service/authenticate/manager.go:309-317 | dispatches an update to the one table step it stands for |
| `Accounting.OwnChargeIsCharged` | service/authenticate/session/manager.go:561-580 | a report reaches exactly the limit of its own factor: flag and type are inverse on the way |
| `Accounting.SessionIsCharged` | service/authenticate/session/manager.go:561-580 | of all the calls of a session the limit of a factor sees exactly the events its reports charge |
| `Accounting.FailuresChargedOnce` | service/authenticate/session/manager.go:576-578 | every failure or exception a factor reports is one failure on its own limit, and nothing else is |
| `Accounting.OtherStatusesExactly` | service/authenticate/session/normal_verify.go:189-193 | a report that is neither success nor failure leaves every limit alone, except exactly when the aggregate success stands without it: then all limits are lifted |
| `Accounting.LaterReportLiftsLimits` | service/authenticate/session/normal_verify.go:189-193 | after a passed finger, an error of the face driver or the report of the password just unlocked lifts every limit again |
| `Accounting.SessionDecides` | service/authenticate/session/manager.go:561-580 | while a session runs among queries and the calls of other sessions, a factor is let through exactly when the ledger of its charges merged with those calls says so; queries do not count |
| `Accounting.SuccessLiftsEveryLimit` | service/authenticate/session/manager.go:564-573 | whatever happened to the table before, a passed password or an aggregate success leaves every limit of the user and limit type at zero failures and allowed |
| `Accounting.OthersKeepTheirLimits` | service/authenticate/session/manager.go:561-580 | no session changes a limit of another user or of the other limit type |
| `FactorOrders.ResolveOrder` | misc/pam-module/auth/utils.c:155-193 | the selection sort gives a permutation of the factors along which priorities do not increase |
| `FactorOrders.MaxFrom` | misc/pam-module/auth/utils.c:164-181 | finds the first of the largest remaining priorities |
| `FactorOrders.SwapKeepsTied` | misc/pam-module/auth/utils.c:183-189 | swapping both arrays keeps the scratch array tied to the order |
| `FactorOrders.PermutationCovers` | misc/pam-module/auth/utils.c:155-193 | no factor is left out of the order |
| `FactorOrders.WalkVisitsEachFactor` | misc/pam-module/auth/utils.c:155-193 | factors of different types stay different in the order and each is on it |
| `PamClient.Client.constructor` | misc/pam-module/auth/utils.c:155-193 | the client holds the factors in order of priority |
| `PamClient.Client.StartVerify` | misc/pam-module/auth/mfa.c:6-19 | starts the factor at a place of the order and aborts beyond it |
| `PamClient.Client.StartNext` | misc/pam-module/auth/mfa.c:37-79 | ends the factor that has passed and starts the next one on the order |
| `PamClient.Client.Deal` | misc/pam-module/auth/mfa.c:21-176 | handles one signal: the next factor on the success of the current one, the result on the aggregate, the errors otherwise |
| `PamClient.Client.Authenticate` | misc/pam-module/auth/pam.c:425-505 | the entry, then the loop until a result other than -1 is in sight or the bus fails; success only through an aggregate success, MAXTRIES for a locked password |
| `PamClient.ClientFollowsWalk` | misc/pam-module/auth/mfa.c:37-71 | whatever signals arrive, the client starts the factors along the order, each at most once and each ended before the next |
| `PamClient.StartsBoundedExactly` | misc/pam-module/auth/mfa.c:43-71 | on every run there are no more starts than factors if and only if the types are all different |
| `PamClient.RepeatedTypeNeverEnds` | misc/pam-module/auth/mfa.c:47-52 | with a repeated type the client can be made to start factors any number of times |
| `PamClient.StartsByPriority` | misc/pam-module/auth/mfa.c:6-71 | the factors are started in non-increasing priority, each at most once, and at most as many as there are |
| `PamClient.ClientDecidesExactly` | misc/pam-module/auth/mfa.c:21-108 | while nothing fails around it, the client ends with what the first signal says that is an aggregate success or the failure of a factor |
| `PamClient.ClientWaitsExactly` | misc/pam-module/auth/mfa.c:21-108 | while nothing fails around it, the client is undecided if and only if it has been sent neither an aggregate success nor the failure of a factor |
| `PamClient.Client.Enter` | misc/pam-module/auth/pam.c:425-481 | the look at the limit, the subscription and the first start |
| `PamClient.AttemptSucceedsOnly` | misc/pam-module/auth/pam.c:425-505 | an attempt lets the user in only if the password is not locked, neither the subscription nor the first start fails, and an aggregate success arrives |
| `PamClient.AttemptEndsEarly` | misc/pam-module/auth/pam.c:425-481 | a locked attempt ends in MAXTRIES without a call, one that cannot subscribe or start aborts |
| `PamClient.BusErrorAborts` | misc/pam-module/auth/pam.c:484-505 | an error of the bus aborts an undecided attempt for good |
| `PamClient.SignalAbortsExactly` | misc/pam-module/auth/mfa.c:21-176 | one signal makes the client abort if and only if it asks for input that cannot be read, or passes a factor whose successor cannot be started; which signals succeed and fail |
| `EndToEnd.AddTxs` | service/authenticate/session/manager.go:453-520 | the session has the factors of its mask, in a fixed order and each once, without those that cannot be initialised |
| `EndToEnd.AddedAreConfigured` | service/authenticate/session/manager.go:453-520 | with the mask of a configuration the session has just its factors but for those that failed, and all are different |
| `EndToEnd.GenAuthFactors` | service/authenticate/session/multifactor_verify.go:331-350 | offers flag and priority of every factor of the session, in order |
| `EndToEnd.WalkIsSound` | service/authenticate/session/multifactor_verify.go:331-350 | whichever factors could be initialised, the order of the client holds each of them once, in non-increasing priority |
| `EndToEnd.WalkInOrder` | misc/pam-module/auth/utils.c:155-193 | the client of a session starts password, active directory, key, finger, face, iris and custom factor in this order, as far as the mask demands them and they could be initialised |
| `EndToEnd.InvariantHolds` | misc/pam-module/auth/pam.c:484-505 | in every interleaving an aggregate success on the wire was sent when all had passed and after every failure was told, and an undecided client has seen no failure |
| `EndToEnd.SuccessMeansEveryFactorPassed` | misc/pam-module/auth/pam.c:208-246 | in every interleaving a client that reports success was not locked out, and acts on an aggregate success sent when the latest counted report of every factor was a success and none had failed |
| `EndToEnd.SuccessNeedsEveryFactor` | service/authenticate/session/manager.go:453-520 | a client succeeds only if the session has every configured factor: when one could not be initialised it never does |
| `EndToEnd.ClientRunsOnDelivered` | misc/pam-module/auth/pam.c:484-505 | the client handles the signals in the order in which they were sent |
| `EndToEnd.ClientStartsByPriority` | misc/pam-module/auth/mfa.c:6-71 | in every interleaving the client has started a prefix of the factors in order of priority, each once |
| `EndToEnd.ClientWaitsExactly` | misc/pam-module/auth/mfa.c:81-108 | while nothing fails around it, a client that has handled all that was sent waits on if and only if no factor has failed and no aggregate success was sent |
| `EndToEnd.ClientSucceedsExactly` | misc/pam-module/auth/pam.c:484-505 | while nothing fails around it, a client that has handled all that was sent succeeds if and only if at some moment every factor had passed and none had failed before |
| `EndToEnd.ClientEndsOnAggregate` | misc/pam-module/auth/mfa.c:71-90 | while nothing fails around it, the client has succeeded if and only if the last signal it handled is the aggregate success and no failure of a factor came before |
| `EndToEnd.ErrorLeavesClientWaiting` | misc/pam-module/auth/mfa.c:81-108 | an error of the only factor makes the daemon announce failure, and the client waits on |
| `PasswordAttempts.FinalHeardExactly` | service/authenticate/session/password_tx.go:83-89 | a worker that finishes is heard if and only if its session carries the id of the most recent start and no end was completed since |
| `PasswordAttempts.PromptHeardExactly` | service/authenticate/session/password_tx.go:168-188 | a prompt of a worker is handed on under the same condition |
| `PasswordAttempts.IdsFollowHistory` | service/authenticate/session/password_tx.go:30-56 | ids count the starts, and the current id is positive exactly while an attempt is open |
| `PasswordAttempts.SilentAfterEnd` | service/authenticate/session/password_tx.go:49-56 | after a completed end nothing is heard from any worker until the next start |
| `PasswordAttempts.OneFinalPerWorker` | service/authenticate/session/password_tx.go:120-139 | no worker contributes more than one final status |
| `PasswordStarts.PanicsExactly` | service/authenticate/session/password_tx.go:36-54 | a run panics if and only if an end, or a start about to launch, comes after the creation of a session and before the next start of one |
| `PasswordStarts.IdsKeptExactly` | service/authenticate/session/password_tx.go:36-43 | every worker keeps the id it was launched under if and only if no start goes on while the stored session has a worker and an id was taken since its start |
| `PasswordStarts.IdsDifferExactly` | service/authenticate/session/password_tx.go:30-43 | the ids of the workers are all different if and only if between the last starts of the sessions of any two of them an id was taken |
| `PasswordStarts.ResultsAreOwnExactly` | service/authenticate/session/password_tx.go:30-56 | at every moment, whichever worker finishes is heard only if it is the one worker launched by the most recent start, if and only if while an attempt is open no start renews the id of the session of an unfinished worker and no second worker is launched under the newest id |
| `PasswordStarts.OneFinalPerStart` | service/authenticate/session/password_tx.go:83-89 | under the same condition at most one final status is heard for each start |
| `PasswordStarts.KeptApartIsSafe` | service/authenticate/session/password_tx.go:30-56 | starts that are kept apart meet all of these conditions |
| `PasswordStarts.AttemptHeardOnce` | service/authenticate/session/password_tx.go:83-89 | under that condition a final result that is heard is the only one of the one worker launched by the most recent start, which was not ended |
| `PasswordStarts.OverlappingStartsShareAnId` | service/authenticate/session/password_tx.go:31-37 | two overlapping starts read the same id outside the lock and both results are heard |
| `PasswordStarts.OverwrittenSessionPanics` | service/authenticate/session/password_tx.go:36-42 | a start that overwrites the stored session before the other one has launched makes that launch panic |
| `PasswordStarts.OldWorkerAdoptsId` | service/authenticate/session/password_tx.go:36-42 | a start that goes on late gives the session of an older worker the newest id, and its result is heard as the newest |
| `PasswordAttempts.ResultHeardWhileEnding` | service/authenticate/session/password_tx.go:49-56 | between the status Ended and the invalidation of the id a result is still heard |
| `PasswordAttempts.PasswordTx.SendStatus` | service/authenticate/session/password_tx.go:83-89 | hands a status on exactly when the id is the current one |
| `PasswordAttempts.PasswordTx.TakeSessionId` | service/authenticate/session/password_tx.go:31-34 | the locked part of a start |
| `PasswordAttempts.PasswordTx.CreateSession` | service/authenticate/session/password_tx.go:36-36 | stores a new session object over the one before |
| `PasswordAttempts.PasswordTx.StartSession` | service/authenticate/session/password_tx.go:37-40 | starts the session stored by then, with the id read back |
| `PasswordAttempts.PasswordTx.LaunchWorker` | service/authenticate/session/password_tx.go:42-42 | launches a worker on the session stored by then; panics on one that nobody has started |
| `PasswordAttempts.PasswordTx.DoAuth` | service/authenticate/session/password_tx.go:120-139 | gives exactly one final status, under the id its session has by then |
| `PasswordAttempts.PasswordTx.EndSession` | service/authenticate/session/password_tx.go:49-54 | ends the session and gives the status Ended whatever the id; panics on one that nobody has started |
| `PasswordAttempts.PasswordTx.RespondPam` | service/authenticate/session/password_tx.go:168-188 | hands a prompt on under the id its session has by then |
| `PasswordAttempts.PasswordTx.InvalidateSession` | service/authenticate/session/password_tx.go:55-55 | no id is current afterwards |
| `PasswordAttempts.PamSession.End` | service/authenticate/session/password_tx.go:228-238 | the token channel is closed only the first time |
| `FingerprintClaims.FleetRefinesDesk` | service/fingerprint/manager.go:491-531 | on every run, whatever the drivers answer, the devices and the manager return exactly what a single desk with one holder returns; pre-empting never fails |
| `FingerprintClaims.StepRefines` | service/fingerprint/manager.go:491-531 | one handler keeps: only the default device is held, and its holder and user are those the manager remembers |
| `FingerprintClaims.NameLostFreesAll` | service/fingerprint/manager.go:139-153 | stopping at the first device held by the lost name frees every device it held |
| `FingerprintClaims.OneHolder` | service/fingerprint/device.go:50-63 | at every moment at most one device is held, and exactly its holder passes the check |
| `FingerprintClaims.ClaimHolds` | service/fingerprint/manager.go:503-524 | a claim succeeds if and only if there is a device, a known user and a driver that answers or says it is claimed already; then exactly that sender passes the check until a new claim, its release or the loss of its name; a refusal or a timeout never claims |
| `FingerprintClaims.FailedClaimKeepsHoldExactly` | service/fingerprint/manager.go:491-531 | after a claim that fails the former holder still passes the check if and only if the user of the claim is not known; else nobody does |
| `FingerprintClaims.ReleasedExactly` | service/fingerprint/manager.go:491-531 | a release succeeds if and only if the user is known and its caller passes the check; it frees the device, and a failing one changes nothing and says why |
| `FingerprintClaims.DefaultChangesExactly` | service/fingerprint/manager.go:290-352 | the default device changes if and only if the first device of that name is available and no device is held; every refusal says why |
| `FingerprintClaims.CheckedExactly` | service/fingerprint/manager.go:539-547 | the check tells no device, nobody, somebody else and the holder apart |
| `FingerprintClaims.HoldLasts` | service/fingerprint/device.go:103-130 | a hold is changed by nothing but a new claim, its own release or the loss of its name |
| `FingerprintClaims.Device.CheckClaimed` | service/fingerprint/device.go:50-63 | passes exactly the caller who holds the device, and tells nobody from somebody else |
| `FingerprintClaims.Device.Claim` | service/fingerprint/device.go:65-117 | claims a free device if the driver answers, releases only for the holder |
| `FingerprintClaims.Device.Release` | service/fingerprint/device.go:132-156 | frees the device whatever the driver answers |
| `FingerprintClaims.Device.HandleNameLost` | service/fingerprint/device.go:119-130 | frees the device exactly if the lost name held it |
| `FingerprintClaims.Manager.Claim` | service/fingerprint/manager.go:491-531 | performs the claim or release step and changes no device but the default one |
| `FingerprintClaims.Manager.NameOwnerLost` | service/fingerprint/manager.go:139-153 | performs the name-lost step with its early break |
| `FingerprintClaims.Manager.SetDefaultDeviceWithInfo` | service/fingerprint/manager.go:290-315 | changes the default device only when neither the target nor the old one is held |
| `FingerprintClaims.Manager.SetDefaultDevice` | service/fingerprint/manager.go:323-352 | finds the first device of that name, and reports a failed save after the change |
| `FingerprintClaims.Manager.CheckCaller` | service/fingerprint/manager.go:539-547 | what every operation on the default device asks first |
| `FingerNames.OperationsKeepAgreement` | service/fingerprint/fprintd_device.go:426-478 | naming, deleting and renaming keep the list free of duplicates and equal to the keys of the map |
| `FingerNames.WithoutShifts` | service/fingerprint/fprintd_device.go:454-456 | deleting shifts the rest by one place and keeps its order |
| `FingerNames.DeleteUndoesSet` | service/fingerprint/fprintd_device.go:426-460 | naming a new finger and deleting it restores list and map |
| `FingerNames.NamedExactly` | service/fingerprint/fprintd_device.go:426-433 | a finger that was named is answered with that name, and every other one with the name it had |
| `FingerNames.EqualLengthsMeanNothingMissing` | service/fingerprint/fprintd_device.go:492-495 | equal lengths mean that every reported finger is known, even if the reader repeats itself |
| `FingerNames.OneNamePerFinger` | service/fingerprint/fprintd_device.go:480-514 | one name per different finger reported, as many as reported exactly when none is repeated, and the list covers the report |
| `FingerNames.AddMissingAgrees` | service/fingerprint/fprintd_device.go:497-506 | adding the missing fingers keeps the invariant, the order and every given name |
| `FingerNames.AskingAgainChangesNothing` | service/fingerprint/fprintd_device.go:480-514 | asking twice with the same report changes nothing the second time |
| `FingerNames.FingerNameConfig.IsFingerExists` | service/fingerprint/fprintd_device.go:406-414 | some finger carries the name |
| `FingerNames.FingerNameConfig.SetWithoutSave` | service/fingerprint/fprintd_device.go:426-433 | the naming step on the slice and the map |
| `FingerNames.FingerNameConfig.Append` | service/fingerprint/fprintd_device.go:429-429 | appends to the slice, moving to a larger array when it is full |
| `FingerNames.FingerNameConfig.ShiftLeft` | service/fingerprint/fprintd_device.go:454-455 | the in-place shift closes the gap and blanks the last place |
| `FingerNames.FingerNameConfig.Delete` | service/fingerprint/fprintd_device.go:441-460 | for any configuration file, the deletion of the first entry in place; a finger that is not on the list changes nothing |
| `FingerNames.FingerNameConfig.Rename` | service/fingerprint/fprintd_device.go:462-478 | for any configuration file, renames some finger of that name, or fails and changes nothing; it fails only if there is none or the one with the empty standard name is met |
| `FingerNames.FingerNameConfig.Clear` | service/fingerprint/fprintd_device.go:516-521 | empties list and map |
| `FingerNames.FingerNameConfig.GetFingerNames` | service/fingerprint/fprintd_device.go:480-514 | for any configuration file, the new list and map and the names returned; the clean-cut answer when list and map agree |
| `FingerNames.FingerNamesWhenAgreed` | service/fingerprint/fprintd_device.go:480-514 | when list and map agree, the given names of the reported fingers come back in list order, after the missing ones were added |
| `FingerNames.DeletedExactly` | service/fingerprint/fprintd_device.go:441-460 | for any configuration file, a deleted finger is gone from list and map if and only if the list had it once or neither had it; no other finger is touched |
| `FingerNames.CoversExactly` | service/fingerprint/fprintd_device.go:480-514 | for any configuration file: afterwards the list covers every possible report if and only if it repeats no name and lists every finger of the map |
| `FingerNames.RepeatedNameMisses` | service/fingerprint/fprintd_device.go:492-495 | for every list that repeats a name, a report of which a finger is left out |
| `FingerNames.UnlistedFingerMisses` | service/fingerprint/fprintd_device.go:426-433 | a finger that the map has and the list has not is never added |
| `ActionTables.KeyInjective` | service/charaDataManger/manager.go:361-361 | the string key determines caller and kind, whatever the caller is called |
| `ActionTables.DigitsInjective` | service/charaDataManger/manager.go:361-361 | different numbers are written differently |
| `ActionTables.ChannelsAreSafe` | service/charaDataManger/manager.go:390-402 | on every run with fresh ids and channels, in whatever order the table is walked, a channel is closed at most once and nothing is sent on it afterwards |
| `ActionTables.OneActionPerCallerAndKind` | service/charaDataManger/manager.go:357-388 | at every moment a caller has at most one action of each kind |
| `ActionTables.RefusedExactly` | service/charaDataManger/manager.go:357-388 | an action is refused exactly when its caller has one of the same kind or the driver has no owner |
| `ActionTables.StepKeepsSound` | service/charaDataManger/manager.go:264-402 | every call keeps ids and channels of live actions apart and their channels open |
| `ActionTables.HearsExactly` | service/charaDataManger/manager.go:264-402 | what a call does on the channel of an action: its release closes it, its driver status goes to it alone, the loss of caller and driver is told with their codes, and nothing else is heard, in whatever order the table is walked |
| `ActionTables.TableChangesExactly` | service/charaDataManger/manager.go:357-402 | a call enters at most its own action, with no status yet, and changes or removes the one it names alone |
| `ActionTables.CharaDataManager.GenActionId` | service/charaDataManger/manager.go:357-388 | enters the action or refuses it, with no effect on any channel |
| `ActionTables.CharaDataManager.ReleaseActionId` | service/charaDataManger/manager.go:390-402 | closes the channel of the named action, which is open, and removes it |
| `ActionTables.CharaDataManager.HandleDriverStatus` | service/charaDataManger/manager.go:571-608 | sends to the named action alone, on an open channel, and records the code |
| `ActionTables.CharaDataManager.TellDisconnected` | service/charaDataManger/manager.go:276-324 | tells an action of the loss of its caller, its driver, or both |
| `ActionTables.CharaDataManager.HandleOwnerChanged` | service/charaDataManger/manager.go:264-327 | tells every action concerned, on open channels only; a name that appears concerns none |
| `TokenEncryption.PaddingRoundTripExactly` | service/encrypt/aes.go:10-24 | unpadding undoes padding if and only if the block size is positive and the padding fits into a byte |
| `TokenEncryption.PaddedShape` | service/encrypt/aes.go:10-17 | padding ends on a block boundary, adds between one byte and one block, and keeps the text |
| `TokenEncryption.PadBuffer` | misc/pam-module/auth/utils.c:516-524 | the buffer the client fills in place equals the padding of the daemon for block size 16 |
| `TokenEncryption.UnPadBuffer` | lib/src/encrypt/aes.c:72-76 | the bytes the C library copies out are the text without its padding |
| `TokenEncryption.BothUnpaddingsInvert` | lib/src/encrypt/aes.c:72-76 | both unpaddings return the original for every text |
| `TokenEncryption.UnpaddingsAgree` | lib/src/encrypt/aes.c:72-76 | the two unpaddings differ exactly on a last byte of 128 or more that does not exceed the length |
| `TokenEncryption.CbcRoundTrip` | service/encrypt/aes.go:26-57 | chained decryption undoes chained encryption over any invertible block cipher |
| `TokenEncryption.DecryptUndoesEncrypt` | service/encrypt/aes.go:26-57 | the daemon decrypts what it encrypts, for every message |
| `TokenEncryption.UnpaddingsExactly` | service/encrypt/aes.go:19-24 | what both unpaddings do to any buffer, and when they run off it |
| `TokenEncryption.BitOfXor` | service/encrypt/aes.go:52-54 | a bit of the mixed byte is set if and only if it is set in one of the two alone |
| `TokenEncryption.BlocksOnTheWire` | service/encrypt/aes.go:42-57 | the first block sent is the plain encryption of the first 16 bytes of the padded text, each later one that of its bytes mixed with the block before |
| `TokenEncryption.EncryptBlocks` | lib/src/encrypt/aes.c:6-54 | the chaining done in place, block after block, is the chained encryption of the daemon |
| `TokenEncryption.EncryptClient` | lib/src/encrypt/aes.c:6-54 | the client encrypts every message to what the daemon would have sent, and fails exactly when the key does not fit |
| `TokenEncryption.CiphertextDeterminesMessage` | service/encrypt/aes.go:42-57 | different messages have different ciphertexts |

## Left out

- D-Bus, polkit, file watching, PAM conversations and files: their results are parameters, saved data is a value, and a failed save of limits or finger names has no effect on the tables.
- Goroutines and locks beyond the interleavings modelled: handlers of one object are taken one at a time; starts and ends of password attempts, and daemon and client, interleave freely.
- The channel of the controllers holds ten reports and a full channel blocks the sender; the queue of the model is unbounded, and the loop ends when the given queue is used up.
- Message texts: prompts, translations and the message joined from all factors for the aggregate signal.
- Starting factors from `authenticate`, their timeouts and device states: factors may report anything at any time instead. An aggregate prompt and the end of a session are arbitrary announcements that are never an aggregate success.
- `Limits.VerdictOfHistory`: does not use 64-bit nanoseconds; `Limits.SixtyFourBitTimeExactly` says when the comparison is the ideal one.
- `Limits.RestartIsBisimilar`: compares published records only for limits in force or not dynamic; `Limits.RestartExportExactly` says exactly which others change.
- `LimitTables.RestartedTableIsBisimilar`: leaves out the same published periods, and `LateRestarts.LateRestartIsBisimilar` too.
- `lastFailAt`, which is written and never read, and the export fields that repeat the configuration.
- `MfaConfig.MFAConfig.LoadConfigFile`: takes the parsed file name and content; splitting the name and decoding JSON are not modelled, nor is removing a configuration, which deletes by file name from a map keyed by application.
- `PamClient.Client.Deal`: keeps the result, the current type and the calls to the session; messages to the user and the text of the password prompt are not modelled, nor is `need_cancel`, which the client writes and never reads.
- `PamClient.Client.Authenticate`: leaves out the password thread, which can end the attempt through its shortcut `GetResult` and with error codes of its own.
- The client for sessions that accept any one factor (`sfa.c`).
- `PasswordAttempts.PasswordTx.DoAuth`: takes the answer of PAM as a parameter; of the token channel the model keeps whether it is there and whether it was closed, and a worker launched on a session whose PAM start failed reports like any other.
- `FingerprintClaims.Manager.Claim`: takes the driver's answer, or its timeout, as a parameter; a driver that answers after the timeout is not modelled.
- `ActionTables.CharaDataManager.GenActionId`: takes the generated id and the caller's channel as new ones; channels are unbounded, so a send never blocks.
- `ActionTables.CharaDataManager.HandleDriverStatus`: stands for the enroll and the verify handler, which differ only in a log line.
- A driver that changes its kinds, renaming and listing of biometric data, and the choice of a driver.
- `TokenEncryption.DecryptUndoesEncrypt`: is over any invertible block cipher; AES itself, the RSA exchange and key generation are not modelled.
- Shared-memory image transport, the Huawei driver and the UKey and face managers, which are device plumbing.
