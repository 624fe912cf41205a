# NexiForma: a verified model

This project models seven parts of the NexiForma API whose guarantees span several functions or a whole
history of calls, and proves those guarantees for every input and every run.

| part | files |
|---|---|
| failed-login limiter, in memory and in Redis | `LoginLimiter`, `LoginLimiterBackends`, `LoginLimiterRedis` |
| refresh sessions and password-reset links | `Auth`, `AuthRuns`, `AuthOutcomes` |
| calendar reminders of meetings | `CalendarReminders` |
| conclusion of training actions | `ActionConclusion`, `ActionReadiness`, `ActionCollector`, `TrainingActions` |
| import of the UFCD catalogue | `UfcdLine`, `UfcdFile`, `UfcdImport`, `UfcdAccounting`, `UfcdCells`, `UfcdRoundTrip`, `UfcdCatalogue` |
| LMS deadlines, prerequisites, progress | `Dates`, `LmsDeadlines`, `LmsDeadlineRuns`, `LmsPrerequisites`, `LmsProgress`, `LmsAccess` |
| certificate verification | `Certificates`, `CertificateRuns` |

`Wrappers` (Option, Result) and `Text` (trimming, joining, numerals) are shared.

How it is built. A service that changes rows step by step is a class; its tables are `map`, `set` or `seq` fields, and
each method's `ensures` ties the new tables and the reply to a function of the old ones. Runs are sequences of events
over the same functions, so the lemmas about runs speak of what the methods do. Each call is one atomic step. Clocks,
random tokens, digests, the calendar, the password verifier, e-mail normalisation and the success of sending a message
are parameters; where a result needs it, the digest is assumed free of collisions and a new token unused.

Where the code does not do what its comments or names suggest, the code is followed and the exact condition is proved:

- Limiter: the bound of `2·max − 2` failures in a window needs the lockout to cover the window, and the prune timer too:
  a tenant's window can be an hour while the timer forgets unlocked records after a quarter of one (`BoundIffCovered`).
  The same decides whether prunes show (`PruningUnobservableIff`) and whether the backends agree away from the edges
  (`SameRefusalsIff`); on the edges they disagree (`EdgeFailureDiverges`, `LateCheckDiverges`). Redis keeps the bound only if
  the lock outlasts the counter by the milliseconds its reported rest may hide (`RedisBoundIff`), so not with equal settings
  unless the rest is rounded up.
- Training actions: the schedule import writes the deadline unchecked, so it can lie before the start (`WellDatedIff`).
- UFCD report: repeated lines are counted by searching the skip reason for the word "duplicado", so an invalid code that
  contains the word is counted as a repetition (`ReportedDuplicatesExactIff`, `MiscountedLine`).
- LMS deadlines: releasing a module to one enrolment by name ignores the deadline, and an enrolment suspended during the
  block gets its unlock back when reactivated (`HeldOnlyByName`, `ReleaseByNameIgnoresDeadline`, `SuspendedKeepsUnlock`);
  the gate of the learner's path and of quizzes stays shut all the same (`GateHoldsRegardless`), but commits of SCORM
  packages do not pass it: from the deadline on they, and nothing else, move a row of progress (`OnlyCommitsCount`,
  `AttemptsPastDeadline`, `CommitCompletesPastDeadline`).
- Refresh sessions: completing a social login looks up the session by token and expiry, not by revocation, so after a
  compromise the exchange of an unexpired session grants access without a login, and no other call modelled does (`CompromiseEndsAccess`,
  `CompromisedStillExchanged`).
- LMS prerequisites: the stored chain orders ties by creation, the learner's path by identifier (`StoredMatchesIff`), and
  a second synchronisation may write again when two units tie on both keys (`IdleForSureIff`).
- LMS progress: a failed quiz clears the completion date, which neither of the other two writers ever does (`CompletionHistory`).
- Certificates: a token that happens to start with `NF-` is looked up as a public code and is never confirmed
  (`PrefixedTokenUseless`); a field that contains the separator lets different contents share a fingerprint (`PayloadIdentifiesIff`).

## Model

| member | source | states |
|---|---|---|
| LoginLimiter.LoginAttemptLimiter.KeyIff | apps/api/src/auth/login-attempt-limiter.service.ts:56-58 | two accounts share a key if and only if scope and normalised identifier agree |
| LoginLimiter.LoginAttemptLimiter.AssertNotLocked | apps/api/src/auth/login-attempt-limiter.service.ts:79-104 | verdict and retry delay of either backend; an elapsed in-memory lock is forgotten with its counter; nothing of any other account changes |
| LoginLimiter.RefusedWhileLocked | apps/api/src/auth/login-attempt-limiter.service.ts:94-104 | refused if and only if the lock still lasts, with the rest of it in whole seconds rounded up |
| LoginLimiter.LoginAttemptLimiter.RecordFailure | apps/api/src/auth/login-attempt-limiter.service.ts:106-142 | counts in the open window or opens a new one, locks at the limit; nothing of any other account changes |
| LoginLimiter.LoginAttemptLimiter.Clear | apps/api/src/auth/login-attempt-limiter.service.ts:144-151 | forgets the account in the backend in use, and no other account |
| LoginLimiter.LoginAttemptLimiter.Prune | apps/api/src/auth/login-attempt-limiter.service.ts:153-164 | the sweep drops exactly the stale records |
| LoginLimiter.StaleIff | apps/api/src/auth/login-attempt-limiter.service.ts:156-162 | stale means a lock that is over, or no lock and a window over for more than the global one |
| LoginLimiter.SpacedBound | apps/api/src/auth/login-attempt-limiter.service.ts:106-142 | times of which every burst-th are a window apart put at most burst in any half-open window |
| LoginLimiter.RunAccounted | apps/api/src/auth/login-attempt-limiter.service.ts:79-142 | in every run with checks before failures the record accounts for the last failures, and failures are spaced |
| LoginLimiter.RateBound | apps/api/src/auth/login-attempt-limiter.service.ts:79-164 | no half-open window of any such run holds more than max(m, 2m − 2) failures, prunes included, where the lockout lasts the window and no prune comes before its end |
| LoginLimiter.BoundReached | apps/api/src/auth/login-attempt-limiter.service.ts:79-142 | for every policy some run does put 2m − 2 failures in one window |
| LoginLimiter.ShortLockoutOverflows | apps/api/src/auth/login-attempt-limiter.service.ts:79-142 | with a lockout shorter than the window some run puts 2m failures in one |
| LoginLimiter.EarlyPruneOverflows | apps/api/src/auth/login-attempt-limiter.service.ts:131-164 | with a policy window over a millisecond longer than the one of the prune timer, some run puts 2m − 1 failures in one |
| LoginLimiter.BoundIffCovered | apps/api/src/auth/login-attempt-limiter.service.ts:79-164 | for every policy the bound holds of all runs if and only if the lockout lasts the window and, unless one failure already locks, the window is at most the prune timer's and a millisecond; for m ≥ 2 the bound is 2m − 2 |
| LoginLimiterBackends.StepSimulates | apps/api/src/auth/login-attempt-limiter.service.ts:88-142 | one step keeps record and Redis keys in the simulation relation and gives the same verdict |
| LoginLimiterBackends.RunSimulates | apps/api/src/auth/login-attempt-limiter.service.ts:88-164 | both backends refuse the same checks of every run in whole seconds that avoids the edges, prunes included |
| LoginLimiterBackends.ShortLockoutDiverges | apps/api/src/auth/login-attempt-limiter.service.ts:88-150 | with a lockout shorter than the window Redis refuses a check that the record lets in, away from every edge |
| LoginLimiterBackends.EarlyPruneDiverges | apps/api/src/auth/login-attempt-limiter.service.ts:121-164 | so it does when a prune comes before the end of the window |
| LoginLimiterBackends.SameRefusalsIff | apps/api/src/auth/login-attempt-limiter.service.ts:79-164 | for whole seconds the backends agree on all runs off the edges if and only if lockout and prune timer cover the window, or one failure already locks |
| LoginLimiterBackends.EdgeFailureDiverges | apps/api/src/auth/login-attempt-limiter.service.ts:121-141 | for every policy of two attempts or more, a failure exactly on the window edge locks one backend and not the other |
| LoginLimiterBackends.LateCheckDiverges | apps/api/src/auth/login-attempt-limiter.service.ts:88-101 | for every policy, a check in the hidden last milliseconds of a lock is refused by one backend only |
| LoginLimiterBackends.PruningUnobservable | apps/api/src/auth/login-attempt-limiter.service.ts:94-164 | removing every prune step from a run changes no verdict, under that condition |
| LoginLimiterBackends.EarlyPruneIsObservable | apps/api/src/auth/login-attempt-limiter.service.ts:153-164 | with a longer policy window a prune does change a verdict, for every policy of two attempts or more |
| LoginLimiterBackends.PruningUnobservableIff | apps/api/src/auth/login-attempt-limiter.service.ts:94-164 | prunes change no verdict of any run if and only if the policy window is at most the global one, or one failure already locks |
| LoginLimiterRedis.RedisRunAccounted | apps/api/src/auth/login-attempt-limiter.service.ts:88-129 | in every run against Redis the two keys account for the last failures, and failures are spaced |
| LoginLimiterRedis.LateLockOverflows | apps/api/src/auth/login-attempt-limiter.service.ts:88-129 | otherwise a counter filled just before it expires lets one failure too many into a window |
| LoginLimiterRedis.RedisBoundIff | apps/api/src/auth/login-attempt-limiter.service.ts:88-129 | the bound holds of all Redis runs, edges included, if and only if the lock lasts a counter window and the hidden milliseconds |
| Auth.MatchPasswordHash | apps/api/src/auth/shared-password.util.ts:8-21 | returns the first stored hash the password fits; none only if none fits; malformed and repeated hashes do not matter |
| Auth.AuthService.RevokeOtherRefreshSessions | apps/api/src/auth/auth.service.ts:1086-1098 | deletes the account's unrevoked sessions, keeps its revoked ones and everyone else's |
| Auth.AuthService.CompleteLogin | apps/api/src/auth/auth.service.ts:1100-1124 | the new session displaces the live ones of the account |
| Auth.AuthService.RefreshFromCookie | apps/api/src/auth/auth.service.ts:844-997 | every branch: missing, expired, replayed in and out of grace, unknown kind, inactive account, rotation |
| Auth.AuthService.LogoutFromCookie | apps/api/src/auth/auth.service.ts:999-1009 | revokes the presented live session and nothing else |
| AuthOutcomes.LoginState | apps/api/src/auth/auth.service.ts:1100-1124 | after a login the account has one live session, of the time asked for; every other row is as before |
| AuthOutcomes.LogoutState | apps/api/src/auth/auth.service.ts:999-1009 | the presented session is revoked and no other row or column changes |
| AuthOutcomes.LoggedOutForGood | apps/api/src/auth/auth.service.ts:999-1009 | in any run it stays revoked, and is never rotated again |
| Auth.AuthService.IssuePasswordReset | apps/api/src/auth/auth.service.ts:704-733 | the new link replaces the account's unused ones |
| Auth.AuthService.EndSessionsOf | apps/api/src/auth/auth.service.ts:652-654 | the loop over accounts ends exactly their live sessions |
| Auth.AuthService.SyncPasswordHashByEmail | apps/api/src/auth/shared-password.util.ts:27-44 | one hash for all accounts with the email, nobody else touched |
| Auth.AuthService.ConfirmTenantPasswordReset | apps/api/src/auth/auth.service.ts:595-657 | link, account, second factor, then hash, verification, use and sessions of all accounts with the email |
| Auth.AuthService.ConfirmPlatformPasswordReset | apps/api/src/auth/auth.service.ts:659-681 | the same for a platform administrator |
| AuthRuns.OneLiveSession | apps/api/src/auth/auth.service.ts:844-1124 | in every reachable state each account has at most one unrevoked session |
| AuthRuns.RevokedForever | apps/api/src/auth/auth.service.ts:844-1124 | a revoked row is never deleted, un-revoked or changed |
| AuthRuns.NeverRotatedTwice | apps/api/src/auth/auth.service.ts:844-997 | no refresh token is rotated twice in any run |
| AuthRuns.RefreshGrantsIff | apps/api/src/auth/auth.service.ts:844-997 | access is granted if and only if the account is active and the token is its usable session, or was revoked within the grace while it has one; other accounts are untouched |
| AuthOutcomes.RefreshLetsIn | apps/api/src/auth/auth.service.ts:844-997 | the same over the columns: account enabled, and an unrevoked unexpired session, or one revoked at most 30 s ago beside another |
| AuthOutcomes.RotationState | apps/api/src/auth/auth.service.ts:950-997 | a rotation revokes the token, adds one session for the configured time, and leaves every other row |
| AuthOutcomes.GraceState | apps/api/src/auth/auth.service.ts:861-925 | a tolerated replay changes nothing and reports the rest of the session in use |
| AuthOutcomes.RefusalState | apps/api/src/auth/auth.service.ts:926-970 | each refusal, its reason, and the sessions it revokes, row by row |
| AuthRuns.ReplayDichotomy | apps/api/src/auth/auth.service.ts:857-910 | a replay either changes nothing within the grace or ends every session of the account |
| AuthRuns.EndedUntilLogin | apps/api/src/auth/auth.service.ts:844-1124 | an account without live sessions stays so until it logs in |
| Auth.AuthService.CompleteOAuthExchange | apps/api/src/auth/auth.service.ts:1175-1263 | grants by an unexpired session, revoked or not, of an active account of the entity named; the tables stay |
| AuthOutcomes.ExchangeGrantedIff | apps/api/src/auth/auth.service.ts:1175-1263 | granted if and only if the session is unexpired and its account enabled, of the entity named |
| AuthRuns.CompromiseEndsAccess | apps/api/src/auth/auth.service.ts:857-949 | after a replay judged a compromise and until a new login, a later call grants the account access if and only if it is the exchange of an unexpired session of it |
| AuthRuns.CompromisedStillExchanged | apps/api/src/auth/auth.service.ts:1175-1263 | the replayed session itself is exchanged, after any run, if and only if it has not expired and the account is active, of the entity named |
| AuthRuns.DisplacedIsHarmless | apps/api/src/auth/auth.service.ts:1086-1115 | a token displaced by a newer login is refused and the refusal changes nothing |
| AuthRuns.LinksOfRun | apps/api/src/auth/auth.service.ts:704-733 | in every run an unused link is the latest of its account, with its own deadline |
| AuthOutcomes.LinkIssued | apps/api/src/auth/auth.service.ts:704-733 | the new link, its time, and which older ones go |
| AuthRuns.UsedForever | apps/api/src/auth/auth.service.ts:595-681 | a used link stays used |
| AuthRuns.AcceptedOnlyIfLatest | apps/api/src/auth/auth.service.ts:780-788 | only the latest link of an account is accepted, and only in time |
| AuthRuns.NeverAcceptedTwice | apps/api/src/auth/auth.service.ts:595-681 | no link is accepted twice in any run |
| AuthOutcomes.TenantResetAcceptedIff | apps/api/src/auth/auth.service.ts:595-657 | accepted if and only if the link is unused, in time and referred to, its subject an active owner of the address, and any second factor among the active owners answered with the right code; each refusal with its reason, changing nothing |
| AuthOutcomes.TenantResetState | apps/api/src/auth/auth.service.ts:628-655 | what acceptance leaves of every account, link and session |
| AuthOutcomes.TenantResetsOfRun | apps/api/src/auth/auth.service.ts:595-657 | in any run the same, and the link accepted is the latest of its account |
| AuthOutcomes.PlatformResetAcceptedIff | apps/api/src/auth/auth.service.ts:659-681 | the same for administrators, with all it leaves |
| AuthRuns.AcceptedResetReachesEveryAccount | apps/api/src/auth/auth.service.ts:595-657 | after acceptance every account with the email has the new hash, the active ones no live session, all others are as before |
| CalendarReminders.KindsDue | apps/api/src/calendario/calendario-notificacoes.service.ts:405-421 | a kind is due if and only if the start lies in its tolerance window; windows never overlap |
| CalendarReminders.DueIff | apps/api/src/calendario/calendario-notificacoes.service.ts:405-421 | the three windows in minutes |
| CalendarReminders.SelectedIff | apps/api/src/calendario/calendario-notificacoes.service.ts:281-300 | up to 200 meetings to come are all read, of more 200 are |
| CalendarReminders.TiposParaInstante | apps/api/src/calendario/calendario-notificacoes.service.ts:405-421 | the pushed list is that one |
| CalendarReminders.CalendarNotifier.EnviarLembrete | apps/api/src/calendario/calendario-notificacoes.service.ts:326-403 | a logged reminder is not sent again; a failed one is not logged |
| CalendarReminders.CalendarNotifier.ProcessarReunioes | apps/api/src/calendario/calendario-notificacoes.service.ts:281-324 | one pass attempts every due kind of every selected meeting for every recipient, in order |
| CalendarReminders.RecipientsIff | apps/api/src/calendario/calendario-notificacoes.service.ts:461-489 | exactly the active users who are the creator, a participant or, without participants, in an audience role |
| CalendarReminders.SendAllAdds | apps/api/src/calendario/calendario-notificacoes.service.ts:326-403 | a pass only appends: the old log, plus exactly the attempted reminders that went through, without repeats |
| CalendarReminders.AttemptedIff | apps/api/src/calendario/calendario-notificacoes.service.ts:281-324 | a reminder is attempted if and only if a selected meeting is due for it and invites the user |
| CalendarReminders.NeverLoggedTwice | apps/api/src/calendario/calendario-notificacoes.service.ts:326-403 | in any run at all no reminder is logged twice |
| CalendarReminders.RunUpToDate | apps/api/src/calendario/calendario-notificacoes.service.ts:281-421 | after every punctual run the log holds exactly the reminders whose window has opened, in order |
| CalendarReminders.ExactlyOnceEach | apps/api/src/calendario/calendario-notificacoes.service.ts:281-421 | passes at most 20 minutes (and 1 ms) apart leave exactly one week, day and hour reminder per recipient, in that order |
| CalendarReminders.InLogIff | apps/api/src/calendario/calendario-notificacoes.service.ts:281-421 | in any run at all, retries and the cap of 200 meetings included, a reminder is in the log if and only if some pass selected its meeting, found it due and got it through, or another part sent it |
| CalendarReminders.LoggedIff | apps/api/src/calendario/calendario-notificacoes.service.ts:281-421 | where every pass selects the meeting and sending succeeds, a reminder is in the log if and only if some pass, punctual or not, fell into its window |
| CalendarReminders.LongerGapMisses | apps/api/src/calendario/calendario-notificacoes.service.ts:281-421 | a run whose passes are one millisecond further apart ends with no hour reminder in its log |
| CalendarReminders.CompleteIff | apps/api/src/calendario/calendario-notificacoes.service.ts:281-421 | every run with pauses up to a gap leaves exactly one reminder of each kind, in order, if and only if the gap is at most 20 minutes and 1 ms |
| ActionReadiness.LatestIndex | apps/api/src/acoes-formacao/acoes-formacao.service.ts:312-347 | the schedule looked at is the first of the highest version |
| ActionReadiness.NoGapsIffReady | apps/api/src/acoes-formacao/acoes-formacao.service.ts:285-581 | nothing is missing if and only if the readiness condition over the fields holds: approved latest schedule, sessions held with signed summaries and settled sheets, exercises, grades, documents, consents, compliance |
| ActionReadiness.SheetDoneIff | apps/api/src/acoes-formacao/acoes-formacao.service.ts:385-389 | a group's sheet is settled if and only if its first one is closed, or both validated by the trainer and approved by the manager |
| ActionReadiness.GapsIff | apps/api/src/acoes-formacao/acoes-formacao.service.ts:285-581 | each kind of gap is found if and only if the fields of some row say so |
| ActionCollector.MissingCellsCount | apps/api/src/acoes-formacao/acoes-formacao.service.ts:447-456 | the number the grade gap quotes is that of the empty cells |
| ActionCollector.PushScheduleBlockers | apps/api/src/acoes-formacao/acoes-formacao.service.ts:312-359 | adds the gaps of the schedule and pending sessions, no others |
| ActionCollector.PushSessionBlockers | apps/api/src/acoes-formacao/acoes-formacao.service.ts:371-396 | adds missing or unsigned summaries and open sheets of held sessions per group with enrolments |
| ActionCollector.CountDecides | apps/api/src/acoes-formacao/acoes-formacao.service.ts:408-423 | counting completed rows falls short if and only if some task is not done |
| ActionCollector.KeyDecides | apps/api/src/acoes-formacao/acoes-formacao.service.ts:446-450 | the composed text key finds a grade if and only if the cell has one |
| ActionCollector.MissingCellsIff | apps/api/src/acoes-formacao/acoes-formacao.service.ts:447-459 | the counter is positive if and only if a cell is empty |
| ActionCollector.PushGradeBlocker | apps/api/src/acoes-formacao/acoes-formacao.service.ts:430-459 | the nested count adds one gap if a cell is empty |
| ActionCollector.PushTaskBlockers | apps/api/src/acoes-formacao/acoes-formacao.service.ts:398-424 | one gap per enrolment with an unfinished task |
| ActionCollector.PushEnrolmentBlockers | apps/api/src/acoes-formacao/acoes-formacao.service.ts:490-519 | consent, first lacking document and personal documents of each enrolment |
| ActionCollector.PushTrainerBlockers | apps/api/src/acoes-formacao/acoes-formacao.service.ts:521-555 | consent and documents of each trainer of a session, once |
| ActionCollector.FirstsKeepIds | apps/api/src/acoes-formacao/acoes-formacao.service.ts:569-575 | keeping the first of each id loses no id |
| ActionCollector.FirstsIff | apps/api/src/acoes-formacao/acoes-formacao.service.ts:569-575 | a blocker is kept if and only if it is the first with its id |
| ActionCollector.Report | apps/api/src/acoes-formacao/acoes-formacao.service.ts:569-580 | the first forty of those, empty if and only if nothing was found |
| ActionCollector.CollectConclusaoBlockers | apps/api/src/acoes-formacao/acoes-formacao.service.ts:285-581 | the loops return the empty list if and only if the action is concluded or ready; each blocker is a gap over the fields and quotes its number; up to 40 gaps the list is exact |
| TrainingActions.ActionService.CreateAction | apps/api/src/acoes-formacao/acoes-formacao.service.ts:89-154 | refusals in order; the created action |
| TrainingActions.ActionService.UpdateAction | apps/api/src/acoes-formacao/acoes-formacao.service.ts:180-277 | refusals in order; only named fields change |
| TrainingActions.CreatedIff | apps/api/src/acoes-formacao/acoes-formacao.service.ts:89-154 | created if and only if course known, code unused, dates readable and in order, state planned or cancelled; and as what |
| TrainingActions.EditedIff | apps/api/src/acoes-formacao/acoes-formacao.service.ts:180-277 | accepted if and only if the dates asked for or kept are readable and in order and the state may be set; and every field afterwards |
| TrainingActions.ActionService.Concluir | apps/api/src/acoes-formacao/acoes-formacao.service.ts:583-622 | concludes if and only if ready; a repeat succeeds and changes nothing |
| TrainingActions.ConcludedIff | apps/api/src/acoes-formacao/acoes-formacao.service.ts:583-622 | succeeds if and only if the action is concluded, or running and ready, and then it is concluded and nothing else changes |
| TrainingActions.ReadyIsConcluded | apps/api/src/acoes-formacao/acoes-formacao.service.ts:583-622 | after any run the call concludes a running action if and only if it is ready |
| TrainingActions.ActionService.RemoveAction | apps/api/src/acoes-formacao/acoes-formacao.service.ts:1028-1059 | neither running nor concluded actions, nor any with enrolments in whatever state, or submissions, are removed |
| TrainingActions.RemovedIff | apps/api/src/acoes-formacao/acoes-formacao.service.ts:1028-1059 | removed if and only if planned or cancelled, every group empty and no submissions; nothing else goes |
| TrainingActions.NobodyEnrolledIff | apps/api/src/acoes-formacao/acoes-formacao.service.ts:1045 | the sum over the groups is zero if and only if every group is empty |
| TrainingActions.ActionService.ImportScheduleDeadline | apps/api/src/cronogramas/cronograma-import-ia.service.ts:549-646 | the date given, or failing that the latest of the modules, becomes the deadline without a look at the start |
| TrainingActions.MaxIsLatest | apps/api/src/cronogramas/cronograma-import-ia.service.ts:638-645 | the module date taken is one of them and none is later |
| TrainingActions.ImportedDeadlineIff | apps/api/src/cronogramas/cronograma-import-ia.service.ts:549-646 | the date imported is the one given, otherwise the latest of the modules |
| TrainingActions.ActionService.MarkAcaoEmCurso | apps/api/src/sessoes-formacao/sessoes-formacao.service.ts:435-447 | starting a session moves a planned action on, any other stays |
| TrainingActions.EveryRunWellKept | apps/api/src/acoes-formacao/acoes-formacao.service.ts:117-228 | in every run, schedule imports included, start ≤ end, and codes are unique |
| TrainingActions.StepWellDated | apps/api/src/acoes-formacao/acoes-formacao.service.ts:189-205 | one call spoils the deadline only by importing a date before the start, and restores it only by a later import, an accepted edit or a removal |
| TrainingActions.WellDatedIff | apps/api/src/acoes-formacao/acoes-formacao.service.ts:189-205 | after any run start ≤ deadline if and only if no schedule import brought a date before the start that nothing has put right since |
| TrainingActions.ConcludedForever | apps/api/src/acoes-formacao/acoes-formacao.service.ts:189-228 | a concluded action stays concluded, and is never removed |
| TrainingActions.ConcludedOnlyWhenReady | apps/api/src/acoes-formacao/acoes-formacao.service.ts:583-622 | it is concluded if and only if some call concluded it, on a running action ready at that moment |
| UfcdLine.SplitDelimitedLine | apps/api/src/catalogo-ufcd/catalogo-ufcd-import.util.ts:107-131 | the scanning loop gives the fields of the quote-aware reading |
| UfcdLine.SplitPrinted | apps/api/src/catalogo-ufcd/catalogo-ufcd-import.util.ts:107-131 | splitting a line of printed fields, quoted with quotes doubled (section 2 of RFC 4180) or bare, returns each field trimmed |
| UfcdLine.QuotesInside | apps/api/src/catalogo-ufcd/catalogo-ufcd-import.util.ts:112-121 | quotes open and close anywhere in a field |
| UfcdLine.QuoteLeftOpen | apps/api/src/catalogo-ufcd/catalogo-ufcd-import.util.ts:107-131 | a quote left open takes the rest of the line, delimiters included |
| Text.WhiteSpace | apps/api/src/catalogo-ufcd/catalogo-ufcd-import.util.ts:124 | which characters trimming takes for white space |
| Text.TrimCutsEnds | apps/api/src/catalogo-ufcd/catalogo-ufcd-import.util.ts:124 | trimming removes white space at both ends and nothing else |
| UfcdFile.ParseUfcdImportCsv | apps/api/src/catalogo-ufcd/catalogo-ufcd-import.util.ts:256-265 | byte-order mark, line ends, blank lines, delimiter, then the matrix |
| UfcdFile.PrintedLinesBack | apps/api/src/catalogo-ufcd/catalogo-ufcd-import.util.ts:96-104 | the text of a printed listing comes apart into its lines and its delimiter is recognised |
| UfcdFile.DelimiterIff | apps/api/src/catalogo-ufcd/catalogo-ufcd-import.util.ts:96-104 | the delimiter occurs most often, with its precedence on ties |
| UfcdFile.LinesAlike | apps/api/src/catalogo-ufcd/catalogo-ufcd-import.util.ts:256-258 | LF, CR LF, CR and a byte-order mark make no difference to the lines |
| UfcdImport.MapHeaders | apps/api/src/catalogo-ufcd/catalogo-ufcd-import.util.ts:171-178 | each field is read from the first column headed by it |
| UfcdImport.FirstColumnsUnique | apps/api/src/catalogo-ufcd/catalogo-ufcd-import.util.ts:174-178 | which determines the columns |
| UfcdImport.NationalHeadings | apps/api/src/catalogo-ufcd/catalogo-ufcd-import.util.ts:31-78 | the headings of the national listing name their columns |
| UfcdImport.HeadsTrimmed | apps/api/src/catalogo-ufcd/catalogo-ufcd-import.util.ts:171-172 | headings are looked up and reported without surrounding white space |
| UfcdCells.HoursInText | apps/api/src/catalogo-ufcd/catalogo-ufcd-import.util.ts:144-151 | the first whole number of a text is read, whatever words and white space stand around it, or nothing outside 1 to 1000 |
| UfcdImport.LevelIff | apps/api/src/catalogo-ufcd/catalogo-ufcd-import.util.ts:153-158 | the level is the first digit, else up to eight characters of the text, else nothing |
| UfcdImport.ReadLines | apps/api/src/catalogo-ufcd/catalogo-ufcd-import.util.ts:198-237 | the loop with its set of seen codes gives each line the outcome defined from the lines before it |
| UfcdImport.ParseUfcdImportMatrix | apps/api/src/catalogo-ufcd/catalogo-ufcd-import.util.ts:161-250 | empty file, named columns, headerless listing, unknown headers, no valid row |
| UfcdImport.RefusedIff | apps/api/src/catalogo-ufcd/catalogo-ufcd-import.util.ts:161-250 | empty if and only if no cell is filled; unknown headers if and only if code or name unnamed and no data in their place; otherwise which lines are data |
| UfcdAccounting.EveryLineCounted | apps/api/src/catalogo-ufcd/catalogo-ufcd-import.util.ts:198-237 | rows, skip entries and empty-cell lines add up to the lines read |
| UfcdAccounting.AcceptedIffFirst | apps/api/src/catalogo-ufcd/catalogo-ufcd-import.util.ts:207-223 | a line is accepted if and only if it is the first otherwise valid one with its code |
| UfcdAccounting.OutcomeIff | apps/api/src/catalogo-ufcd/catalogo-ufcd-import.util.ts:207-223 | each outcome of a line and its reason, by code, name and the lines before |
| UfcdAccounting.SkippedIff | apps/api/src/catalogo-ufcd/catalogo-ufcd-import.util.ts:207-223 | the skip entries are the refused lines with their numbers and reasons |
| UfcdAccounting.RowLimits | apps/api/src/catalogo-ufcd/catalogo-ufcd-import.util.ts:230-236 | names are cut at 500 and areas at 200 characters |
| UfcdAccounting.FirstEligibleWins | apps/api/src/catalogo-ufcd/catalogo-ufcd-import.util.ts:198-237 | the accepted rows are exactly those of the first valid lines |
| UfcdAccounting.ValidCodeIsDigits | apps/api/src/catalogo-ufcd/catalogo-ufcd-import.util.ts:81-83 | a valid code is three to five digits as stored, padded or not |
| UfcdAccounting.AcceptedCodesDistinct | apps/api/src/catalogo-ufcd/catalogo-ufcd-import.util.ts:207-223 | accepted codes are valid and pairwise distinct |
| UfcdAccounting.DuplicateRowsExactIff | apps/api/src/catalogo-ufcd/catalogo-ufcd.service.ts:142-160 | the reported number of repeated lines is right if and only if no invalid code contains "duplicado" |
| UfcdAccounting.ReportedDuplicatesExactIff | apps/api/src/catalogo-ufcd/catalogo-ufcd.service.ts:142-160 | for every listing read it is right if and only if no line of the file has a code that contains "duplicado" |
| UfcdAccounting.MiscountedLine | apps/api/src/catalogo-ufcd/catalogo-ufcd.service.ts:142-160 | one line that is reported as a repetition and is none |
| UfcdCells.HoursRounded | apps/api/src/catalogo-ufcd/catalogo-ufcd-import.util.ts:144-151 | hours with a decimal comma are read as the nearest whole number, halves up, or as absent outside 1 to 1000 |
| UfcdCells.SpreadsheetCode | apps/api/src/catalogo-ufcd/catalogo-ufcd-import.util.ts:204-208 | a code stored as a number is read as its four digits, lost zeros included |
| UfcdAccounting.PaddedKeepsNumber | apps/api/src/catalogo-ufcd/catalogo-ufcd-import.util.ts:204-208 | padding gives at least four digits and keeps the number |
| UfcdCells.HoursBack | apps/api/src/catalogo-ufcd/catalogo-ufcd-import.util.ts:144-151 | reading a printed number of hours gives it back |
| UfcdRoundTrip.RowBack | apps/api/src/catalogo-ufcd/catalogo-ufcd-import.util.ts:199-236 | the cells of a printed row are read as that row |
| UfcdRoundTrip.ListingRoundTrip | apps/api/src/catalogo-ufcd/catalogo-ufcd-import.util.ts:96-265 | parsing a printed header and rows with distinct codes returns exactly those rows, in order, and skips nothing |
| UfcdRoundTrip.AcceptedIsStorable | apps/api/src/catalogo-ufcd/catalogo-ufcd-import.util.ts:199-236 | every row an import accepts is one the round trip covers, its texts on one line and trimmed |
| UfcdRoundTrip.ListingRoundTripAnyEnds | apps/api/src/catalogo-ufcd/catalogo-ufcd-import.util.ts:256-265 | the same with any line ends and with a byte-order mark |
| UfcdRoundTrip.HeaderlessRoundTrip | apps/api/src/catalogo-ufcd/catalogo-ufcd-import.util.ts:182-195 | rows without a header are all read as data, the first one too |
| UfcdRoundTrip.ShortLineBack | apps/api/src/catalogo-ufcd/catalogo-ufcd-import.util.ts:204-236 | columns a line lacks are read as empty |
| UfcdCatalogue.OverlayOrderFree | apps/api/src/catalogo-ufcd/catalogo-ufcd.service.ts:187-217 | what the import writes does not depend on the order of the rows |
| UfcdCatalogue.CreatedAppend | apps/api/src/catalogo-ufcd/catalogo-ufcd.service.ts:187-217 | codes created batch by batch are those created at once |
| UfcdCatalogue.CatalogoUfcdService.WriteBatch | apps/api/src/catalogo-ufcd/catalogo-ufcd.service.ts:188-216 | one look-up per batch classifies its rows rightly |
| UfcdCatalogue.CatalogoUfcdService.WriteBatches | apps/api/src/catalogo-ufcd/catalogo-ufcd.service.ts:187-217 | for every batch size the rows are overlaid and created + updated is their number |
| UfcdCatalogue.CatalogoUfcdService.UpsertRows | apps/api/src/catalogo-ufcd/catalogo-ufcd.service.ts:178-234 | over 25 000 rows change nothing; otherwise every row shows in the catalogue column by column, other entries keep theirs, and all four counters are exact |
| UfcdCatalogue.CatalogoUfcdService.ImportCsv | apps/api/src/catalogo-ufcd/catalogo-ufcd.service.ts:113-160 | a refused file changes nothing; an accepted one imports its rows |
| UfcdCatalogue.GrowsByCreated | apps/api/src/catalogo-ufcd/catalogo-ufcd.service.ts:178-234 | the catalogue loses no code and grows by the created ones |
| UfcdCatalogue.ImportedEntry | apps/api/src/catalogo-ufcd/catalogo-ufcd.service.ts:197-226 | what every code holds afterwards, column by column |
| UfcdCatalogue.ActiveAreImported | apps/api/src/catalogo-ufcd/catalogo-ufcd.service.ts:219-226 | with deactivation the active codes are the imported ones |
| UfcdCatalogue.DeactivatedAreOld | apps/api/src/catalogo-ufcd/catalogo-ufcd.service.ts:219-226 | the deactivated count is the active codes of before that are not in the listing |
| UfcdCatalogue.SecondImportIdle | apps/api/src/catalogo-ufcd/catalogo-ufcd.service.ts:178-234 | the same import again creates and deactivates nothing and leaves the catalogue as it is |
| UfcdCatalogue.RestoreFromListing | apps/api/src/catalogo-ufcd/catalogo-ufcd.service.ts:113-234 | importing a printed listing makes the active catalogue that listing; a catalogue already so is unchanged |
| Dates.TextOrderIsDateOrder | apps/api/src/conteudos-lms/lms-prazo.util.ts:15-30 | comparing YYYY-MM-DD texts is comparing dates, and equal texts are equal dates |
| Dates.ReachedIff | apps/api/src/conteudos-lms/lms-prazo.util.ts:20-30 | a deadline is passed if and only if today is a later date, so not on its own day |
| Dates.ReachedForever | apps/api/src/conteudos-lms/lms-prazo.util.ts:24-30 | a passed deadline stays passed |
| Dates.StampReadAsDate | apps/api/src/conteudos-lms/lms-prazo.util.ts:15-18 | a full time stamp in a request is read as its date |
| Dates.RequestIff | apps/api/src/conteudos-lms/conteudos-lms.service.ts:1342-1350 | blank removes; otherwise the first ten characters must be digits and dashes in their places |
| LmsDeadlines.LmsService.BlockModule | apps/api/src/conteudos-lms/conteudos-lms.service.ts:1409-1458 | locks the unit, deletes the unlocks of the action's active enrolments, and tells whether anything changed |
| LmsDeadlines.LmsService.ProcessDeadlines | apps/api/src/conteudos-lms/conteudos-lms.service.ts:1378-1404 | all expired modules are withdrawn, whatever the order of the rows; the two counts are exact for each order, and 0 if and only if nothing changed |
| LmsDeadlines.TouchStep | apps/api/src/conteudos-lms/conteudos-lms.service.ts:1391-1401 | a row is counted if and only if its module is held by an active enrolment, or it is the first passed row of a unit not yet locked |
| LmsDeadlines.LmsService.SetModuleTasks | apps/api/src/conteudos-lms/conteudos-lms.service.ts:1223-1313 | refusals in order, a passed deadline included; otherwise release to, or withdrawal from, every active enrolment |
| LmsDeadlines.LmsService.SetModuleDeadline | apps/api/src/conteudos-lms/conteudos-lms.service.ts:1320-1375 | removes or sets the deadline; one already past may block at once |
| LmsDeadlines.LmsService.UnlockOne | apps/api/src/conteudos-lms/conteudos-lms.service.ts:1460-1514 | succeeds if and only if allowed, the unit is of the course and locked; no look at the deadline |
| LmsDeadlines.LmsService.LockOne | apps/api/src/conteudos-lms/conteudos-lms.service.ts:1516-1525 | deletes that one unlock |
| LmsDeadlines.WithdrawnTwice | apps/api/src/conteudos-lms/conteudos-lms.service.ts:1391-1401 | withdrawing pairs one after the other, in any order, is withdrawing them together |
| LmsDeadlines.SweptTwice | apps/api/src/conteudos-lms/conteudos-lms.service.ts:1378-1404 | a second run on the same day finds nothing to do |
| LmsDeadlines.SweptIsBlocked | apps/api/src/conteudos-lms/conteudos-lms.service.ts:1378-1458 | every expired module is locked and no active enrolment of the action holds it |
| LmsDeadlines.SweepTouchesOnly | apps/api/src/conteudos-lms/conteudos-lms.service.ts:1378-1458 | no other unlock is taken, none is added, nothing else changes |
| LmsDeadlines.SweepLocksOnly | apps/api/src/conteudos-lms/conteudos-lms.service.ts:1438-1447 | a lock is set if and only if it was, or some action's deadline for the unit has passed |
| LmsDeadlines.SweptByDates | apps/api/src/conteudos-lms/conteudos-lms.service.ts:1378-1458 | the sweep by dates: which units end locked and which unlocks stay, for deadlines before today |
| LmsDeadlines.NotSweptOnItsDay | apps/api/src/conteudos-lms/conteudos-lms.service.ts:1378-1458 | nothing is taken on the day of the deadline |
| LmsDeadlines.TasksAllowedIff | apps/api/src/conteudos-lms/conteudos-lms.service.ts:1223-1280 | release and block are let through if and only if permission, course and, for a release, the date allow it |
| LmsDeadlines.ReleaseGives | apps/api/src/conteudos-lms/conteudos-lms.service.ts:1282-1308 | a release gives the module to the active enrolments of the action, locks its unit, and nothing else |
| LmsDeadlines.BlockTakes | apps/api/src/conteudos-lms/conteudos-lms.service.ts:1409-1458 | a block takes it from them, locks its unit, and nothing else |
| LmsDeadlines.ReleaseByNameIff | apps/api/src/conteudos-lms/conteudos-lms.service.ts:1460-1496 | a release by name needs the enrolment, a unit of its course, and the lock |
| LmsDeadlines.DeadlineSetRow | apps/api/src/conteudos-lms/conteudos-lms.service.ts:1343-1372 | setting a deadline changes that one only |
| LmsDeadlines.SwitchIff | apps/api/src/conteudos-lms/conteudos-lms.service.ts:1155-1170 | the switch computed by counting is on if and only if every active enrolment holds the module before its deadline |
| LmsDeadlines.ReleaseShows | apps/api/src/conteudos-lms/conteudos-lms.service.ts:1282-1316 | a collective release turns the switch on if and only if there is an active enrolment |
| LmsDeadlineRuns.StepUnlock | apps/api/src/conteudos-lms/conteudos-lms.service.ts:1223-1525 | past the deadline only a release by name gives a module, and only the withdrawing calls take it |
| LmsDeadlineRuns.HeldOnlyByName | apps/api/src/conteudos-lms/conteudos-lms.service.ts:1223-1525 | after any run an enrolment holds an expired module if and only if it was released by name and not taken away since |
| LmsDeadlineRuns.LockedUntilEdited | apps/api/src/conteudos-lms/conteudos-lms.service.ts:1282-1458 | a locked unit stays locked until it is edited |
| LmsDeadlineRuns.BlockedAfterSweep | apps/api/src/conteudos-lms/conteudos-lms.service.ts:1223-1458 | after a sweep an expired module stays locked, unheld, its collective release refused, its gate shut and shown blocked until its deadline is edited, the unit unlocked, or a release by name |
| LmsDeadlineRuns.ReleaseByNameIgnoresDeadline | apps/api/src/conteudos-lms/conteudos-lms.service.ts:1460-1514 | the exception: it succeeds right after the sweep |
| LmsDeadlineRuns.SuspendedKeepsUnlock | apps/api/src/conteudos-lms/conteudos-lms.service.ts:1409-1458 | a suspended enrolment keeps its unlock through the sweep |
| LmsDeadlineRuns.GateHoldsRegardless | apps/api/src/conteudos-lms/conteudos-lms.service.ts:971-986 | the gate of an expired module is shut and the switch shows it blocked, whoever holds what, from the deadline on |
| LmsAccess.LearnerService.AssertTaskOpen | apps/api/src/conteudos-lms/conteudos-lms.service.ts:946-1018 | open if and only if enrolled, published, earlier work done and, for a unit, released with no deadline before today |
| LmsAccess.OpenOnDeadlineDay | apps/api/src/conteudos-lms/conteudos-lms.service.ts:971-986 | on the day of the deadline it is open |
| LmsAccess.AdmittedIff | apps/api/src/conteudos-lms/conteudos-lms.service.ts:838-885 | which writes are admitted, by dates, publication and kind |
| LmsAccess.LearnerService.UpdateProgress | apps/api/src/conteudos-lms/conteudos-lms.service.ts:838-885 | the write of the learner's path passes the gate or changes nothing |
| LmsAccess.LearnerService.SubmitQuiz | apps/api/src/quizzes/quizzes.service.ts:115-218 | so does a quiz, on quiz tasks only |
| LmsAccess.LearnerService.CommitCmi | apps/api/src/conteudos-lms/scorm.service.ts:80-149 | a commit asks for the enrolment and a published package, and for no gate |
| LmsAccess.StepPastDeadline | apps/api/src/conteudos-lms/scorm.service.ts:80-149 | past its deadline the row of a task changes by the commits of its package only |
| LmsAccess.OnlyCommitsCount | apps/api/src/conteudos-lms/scorm.service.ts:80-149 | from the deadline on, through any mixture of releases, blocks, sweeps and writes, the row is what those commits alone make of it |
| LmsAccess.OtherTasksStandStill | apps/api/src/conteudos-lms/conteudos-lms.service.ts:971-986 | the row of any task that is no published package stands still |
| LmsAccess.AttemptsPastDeadline | apps/api/src/conteudos-lms/scorm.service.ts:80-149 | the attempts gained are exactly the accepted commits |
| LmsAccess.CommitCompletesPastDeadline | apps/api/src/conteudos-lms/scorm.service.ts:80-149 | a commit completes a package of a swept module, whoever holds it |
| LmsPrerequisites.CourseUnits.SyncPrerequisites | apps/api/src/conteudos-lms/conteudos-lms.service.ts:183-205 | writes one row per differing prerequisite and nothing for a non-sequential course |
| LmsPrerequisites.ListedInOrder | apps/api/src/conteudos-lms/conteudos-lms.service.ts:190-194 | a listing goes by position, then by creation or identifier |
| LmsPrerequisites.SyncedIsChained | apps/api/src/conteudos-lms/conteudos-lms.service.ts:196-204 | afterwards each unit requires the one before it, nothing else differs, and exactly the differing rows were written |
| LmsPrerequisites.ReachesFirst | apps/api/src/conteudos-lms/conteudos-lms.service.ts:196-204 | from the i-th unit the first is reached after exactly i steps, without repetition |
| LmsPrerequisites.SecondSyncIdleIff | apps/api/src/conteudos-lms/conteudos-lms.service.ts:183-205 | a second run writes nothing if and only if the units are listed in the same order |
| LmsPrerequisites.ListingUnique | apps/api/src/conteudos-lms/conteudos-lms.service.ts:190-194 | without ties there is only one order |
| LmsPrerequisites.IdleForSureIff | apps/api/src/conteudos-lms/conteudos-lms.service.ts:183-205 | a second run is sure to write nothing if and only if no two units share position and creation time |
| LmsPrerequisites.SyncTwice | apps/api/src/conteudos-lms/conteudos-lms.service.ts:183-205 | both conditions for two runs in a row |
| LmsPrerequisites.StoredMatchesIff | packages/shared/src/lms/percurso.ts:66-93 | the stored prerequisites are those in effect if and only if creation and identifier orders agree among units of one position |
| LmsPrerequisites.EffectiveIs | packages/shared/src/lms/percurso.ts:78-93 | the prerequisite in effect, in sequential and in free courses |
| LmsPrerequisites.StoredDiverges | packages/shared/src/lms/percurso.ts:66-93 | two units for which they differ |
| LmsProgress.ProgressService.UpdateProgress | apps/api/src/conteudos-lms/conteudos-lms.service.ts:856-879 | the row written by the learner's path, old values kept where nothing is given |
| LmsProgress.ProgressService.CommitCmi | apps/api/src/conteudos-lms/scorm.service.ts:80-149 | the cascade of reassignments, refusal of numbers the column cannot take, and the row written |
| LmsProgress.ReportsAllIff | apps/api/src/conteudos-lms/scorm.service.ts:98-119 | a report completes if and only if lesson status, else success status, else raw, else scaled score says so |
| LmsProgress.StatusPercent | apps/api/src/conteudos-lms/scorm.service.ts:20-27 | the percentage of each lesson status, and of the success status behind it |
| LmsProgress.StatusKeys | apps/api/src/conteudos-lms/scorm.service.ts:98-108 | which keys the statuses are read from |
| LmsProgress.ScoreStored | apps/api/src/conteudos-lms/scorm.service.ts:118-119 | a whole score is stored within 0 and 100 |
| LmsProgress.ScoreExtremes | apps/api/src/conteudos-lms/scorm.service.ts:118-119 | endless scores are stored as the limits; fractions and no numbers refuse the report |
| LmsProgress.InheritedRefused | apps/api/src/conteudos-lms/scorm.service.ts:109 | a status that names what every object has refuses the report |
| LmsProgress.ProgressService.SubmitQuiz | apps/api/src/quizzes/quizzes.service.ts:184-218 | the row written by a quiz, completion cleared when failed |
| LmsProgress.QuizScoreNearest | apps/api/src/quizzes/quizzes.service.ts:184 | the score is the nearest whole percentage of the points, halves up |
| LmsProgress.ScoreAtMostHundred | apps/api/src/quizzes/quizzes.service.ts:184-186 | it is at most 100, so a failed quiz never shows a full percentage |
| LmsProgress.StepRow | apps/api/src/conteudos-lms/conteudos-lms.service.ts:856-879 | what each of the three writers leaves in every column of the row |
| LmsProgress.StepCompletion | apps/api/src/conteudos-lms/scorm.service.ts:118-143 | completion appears with a completing write, goes only with a failed quiz, and keeps its date otherwise |
| LmsProgress.RunWellKept | apps/api/src/conteudos-lms/scorm.service.ts:118-143 | in every run of the three writers a full percentage has a completion date |
| LmsProgress.AttemptsCounted | apps/api/src/conteudos-lms/scorm.service.ts:124-143 | attempts are exactly the accepted writes |
| LmsProgress.CompletionHistory | apps/api/src/conteudos-lms/conteudos-lms.service.ts:856-879 | completed at a time if and only if the last completing write was then and no failed quiz followed |
| LmsProgress.CompletedForever | apps/api/src/conteudos-lms/scorm.service.ts:118-143 | where no quiz writes, completion is never lost |
| LmsProgress.FailedQuizTakesCompletion | apps/api/src/quizzes/quizzes.service.ts:184-218 | a quiz on a completed row keeps it completed if and only if it is passed |
| LmsProgress.PercentMayDrop | apps/api/src/conteudos-lms/scorm.service.ts:118-143 | a completed row can show 25 per cent and stays completed |
| Text.JoinIdentifies | apps/api/src/certificados/certificado-verificacao.service.ts:263-269 | parts free of the separator are determined among all splittings of the joined text into as many parts |
| Certificates.PayloadText | apps/api/src/certificados/certificado-verificacao.service.ts:264-268 | the payload as one text |
| Certificates.PayloadIdentifies | apps/api/src/certificados/certificado-verificacao.service.ts:259-270 | a separator-free content has the payload of another content, whatever that one holds, if and only if all fields are equal, a missing UFCD code counting as empty |
| Certificates.PayloadCollides | apps/api/src/certificados/certificado-verificacao.service.ts:259-270 | a separator in any of the six text fields can be moved to its neighbour, giving a different content with the same payload |
| Certificates.PayloadIdentifiesIff | apps/api/src/certificados/certificado-verificacao.service.ts:259-270 | no other content shares the payload if and only if no text field holds the separator |
| Certificates.EligibleIff | apps/api/src/certificados/certificado-verificacao.service.ts:296-310 | the rounded rate reaches 60 if and only if 200·present ≥ 119·total and there are records |
| Certificates.PresentCounts | apps/api/src/certificados/certificado-verificacao.service.ts:308-309 | the attended sessions are counted |
| Certificates.LifetimeIff | apps/api/src/certificados/certificado-verificacao-ttl.util.ts:14-37 | a token lasts its days to the millisecond; without a limit at emission, those asked for later |
| Certificates.ExpiredForever | apps/api/src/certificados/certificado-verificacao-ttl.util.ts:25-37 | an expired token stays expired |
| Certificates.CertificadoVerificacaoService.Emit | apps/api/src/certificados/certificado-verificacao.service.ts:52-104 | replaces the row of the enrolment or is refused by a unique column; says whether the old emission was still good |
| Certificates.CertificadoVerificacaoService.Revoke | apps/api/src/certificados/certificado-verificacao.service.ts:218-231 | marks the row revoked |
| Certificates.CertificadoVerificacaoService.RateOf | apps/api/src/certificados/certificado-verificacao.service.ts:296-310 | the rounded share of attended sessions |
| Certificates.CertificadoVerificacaoService.VerifyPublic | apps/api/src/certificados/certificado-verificacao.service.ts:106-216 | the verdict on the one row named; affirmative if and only if some enrolment is confirmed |
| Certificates.VerdictTells | apps/api/src/certificados/certificado-verificacao.service.ts:121-199 | each verdict, in its order, and what it rests on |
| CertificateRuns.RunUnique | apps/api/src/certificados/certificado-verificacao.service.ts:52-104 | no two rows ever share a public code or a token |
| CertificateRuns.RowHistory | apps/api/src/certificados/certificado-verificacao.service.ts:52-231 | the row of an enrolment is its latest emission and the revocations after it |
| CertificateRuns.ConfirmedIff | apps/api/src/certificados/certificado-verificacao.service.ts:52-310 | after any run something presented is confirmed if and only if it belongs to the latest emission of an enrolment, with no revocation since, unexpired, same payload, and 200·present ≥ 119·total |
| CertificateRuns.UnchangedContent | apps/api/src/certificados/certificado-verificacao.service.ts:179-189 | and if the content certified was separator-free that means unchanged content, whatever the edits brought in |
| CertificateRuns.SupersededTokenDead | apps/api/src/certificados/certificado-verificacao.service.ts:70-82 | an earlier token is confirmed for nobody |
| CertificateRuns.RevokedNotConfirmed | apps/api/src/certificados/certificado-verificacao.service.ts:218-231 | after a revocation neither token nor code is confirmed until a new emission |
| CertificateRuns.PrefixedTokenUseless | apps/api/src/certificados/certificado-verificacao.service.ts:237-247 | a token with the prefix of public codes is never confirmed unless it is one |

## Left out

- Prisma and SQL, Redis networking, mail, push, storage and message texts: tables are maps, sending is an oracle that may fail.
- Interleavings inside one call: the code deletes and creates session rows without a transaction, overlapping reminder passes share a log, and failures in the middle of an import batch are possible; every call is one step here. The block that follows setting a deadline already past runs in the background; here it happens at once or not at all.
- Tenants: one tenant is modelled; look-ups by tenant are part of finding the row.
- Role checks and route guards: permissions enter as booleans.
- Signing of the token that carries a social login (valid three minutes and a minute of tolerance), and impersonation.
- AuthRuns.RevokedForever: removing a user deletes its sessions, revoked ones included (apps/api/src/users/users.service.ts:1151-1161); no call of the model removes a user.
- AuthRuns.UsedForever: the same removal deletes the links of the user, used ones included.
- Clamping of the lockout and token lifetime settings: policies and lifetimes are parameters.
- Session reminders: their query filters on the day column and gives no such guarantee.
- Labels of blockers, beyond the number some of them quote; the compliance checklist and the document policy are facts given to the collector.
- Excel and JSON decoding of listings, and the Unicode normalisation of headers, which is a function parameter that leaves the plain ASCII headers as they are.
- Floating-point rounding: hours, scores and rates are rounded exactly; day-of-month overflow when a date text is read belongs to the calendar parameter.
- Text order of identifiers: each unit carries its place in that order.
- Time-zone conversion: the local day is a parameter of each call, and never goes back in a run.
- The rest of the schedule import (sessions, module matching); its deadlines and locks of modules are the `SetDeadline` and `EditUnit` steps of `LmsDeadlineRuns`, its deadline of the action is modelled.
- CertificateRuns.ConfirmedIff: it is about the verification of certificado-verificacao.service.ts. The older public endpoint affirms a public code by revocation and expiry alone, whatever became of content and attendance (apps/api/src/certificados/verificacao.service.ts:149-150), and may do so where this result denies it.
- TrainingActions.EveryRunWellKept: the wizard that creates a course with its first action (apps/api/src/formacoes/formacoes.service.ts:387-399) is no event of the runs; it checks dates and code as creation does.
- Reading of LMS content: the gate also decides what the learner's path and files show, while the list of published tasks, quiz questions and the launch of packages are served without it; only writes are modelled.
- Reminder passes read at most 200 meetings in no stated order, so with more of them a meeting can be passed over; `InLogIff` covers this, the results about punctual passes assume the meeting selected.
- Path unlocking inside a module (earlier modules and tasks done): one boolean of the gate.
- Quiz questions: a submission is given by the points earned and the points possible.
- LoginLimiterBackends.RunSimulates: a failure exactly on the window edge and a check in the last rounded second of a lock are excluded, because there the backends do differ (`EdgeFailureDiverges`, `LateCheckDiverges`).
- UfcdRoundTrip.ListingRoundTrip: rows are those an import can produce with fields trimmed and on one line.
- ActionCollector.CollectConclusaoBlockers: identifiers are taken to be free of colons, as UUIDs are.
