# KilasOS: verified models of its core algorithms

A Dafny project that models the algorithms and state machines of KilasOS (a NAS daemon written in
Go) and proves what they promise. `dafny verify dfyconfig.toml` checks the whole project.

## What is modelled

- **Schema migrations** (`Decimal`, `VersionOrder`, `SchemaMigration`, `MigrationSearch`,
  `MigrationRunner`). A registry of version edges; a breadth-first search that marks a version as
  visited when it leaves the queue; a step loop that rewrites the version file after each step. The
  chain that is picked is the *plan*: the first in ShortLex order of its versions among all chains
  from the stored version to the target. Each step of a run has a *fate* (done, process killed,
  `Apply` failed, version write failed), and the theorems hold for every choice of fates.
- **The /etc/network/interfaces rewriter** (`Text`, `Interfaces`, `InterfacesLaws`,
  `InterfacesFiles`, `InterfacesFrame`). The parser is specified by the last `inet` stanza of an
  interface and the last value of each key in it; the rewriter by the lines it keeps. The laws are
  about file texts, so splitting, joining, trimming and field splitting are defined and proved as well.
- **Numeric and framing loops** (`Anomaly`, `Bytes`, `DockerLogs`). The z-score detector in exact
  real arithmetic, and the demultiplexer of Docker's log stream.
- **Time-driven stores** (`Monitor`, `Audit`, `Scheduler`). Alert de-duplication, the audit log and
  snapshot pruning, each against a simple account of the full history. Clock readings are parameters,
  in nanoseconds.
- **Users, sessions and lock-out** (`BruteForce`, `UserTable`, `UserStore`, `UserRuns`,
  `UserEffects`). Every operation is a function of the whole store; the class methods refine these
  functions; the theorems are about whole serialised runs.
- **Two codecs** (`AuditCsv`, `License`). The CSV export against a reader of section 2 of RFC 4180,
  and the licence envelope with its 32-bit length arithmetic.

Shared helpers are in `Wrappers`, `Sequences` and `Times`. State that the source keeps in memory and
updates in place is held in classes here; their methods state the whole new state as a function of the old
one, and the theorems are lemmas about those functions.

## Properties that fail, and exactly when they hold

- Rewriting one interface can change another one: an option line under a dropped `auto`/`allow-`
  line slides into the stanza before it. `InterfacesFrame.FrameFails` gives a family of such files.
  `InterfacesFrame.StanzaFrame` has the exact condition for the other interface's stanza to stay as it
  is (nothing leaks into it), and `InterfacesFrame.Frame` the exact condition for what is read for that
  interface (it has no stanza, or the stanza is not static, or the leaked values are the ones it has).
- An `auto`/`allow-` line that names several interfaces, such as `auto lo eth0`, is removed whole when
  one of them is rewritten, so the others are no longer brought up by it
  (`InterfacesFiles.SharedAutoLineGoes`).
- A configuration read back can differ from the one written: with DHCP the static values are not in
  the file, and an empty DNS entry disappears. `InterfacesLaws.RoundTrip` has the exact condition.
- Frames without a single payload byte are returned raw, headers included:
  `DockerLogs.DemuxInvertsFraming` has the exact condition.
- One more recorded failure can lift a ban: after the window a new record starts without it
  (`BruteForce.FailureKeepsBan`, and `BruteForce.BanForgotten` for the default thresholds). Logins
  never get that far, so the lock-out as a whole persists (`UserRuns.LockOutPersists`).
- Replacing a user record can leave a session with a stale role or of a disabled user
  (`UserTable.UpdateKeepsConsistent` has the exact condition, `UserRuns.UpdateLeavesStaleRole` a run).
- The audit cutoff is the retention before now only up to 106751 days, because the duration is a
  64-bit number of nanoseconds (`Audit.CutoffExact`).

## Model

| member | source | states |
|---|---|---|
| Decimal.AtoiItoa | internal/storage/migrate.go:57-67 | the text written to the version file reads back as the same 64-bit number |
| Decimal.AtoiOfNumeral | internal/storage/migrate.go:57-61 | digits with an optional sign read as the sum of the digits times their powers of ten, if that fits 64 bits |
| Decimal.AtoiRejects | internal/storage/migrate.go:57-60 | nothing but an optional sign and decimal digits is read |
| Decimal.ItoaIsCanonical | internal/storage/migrate.go:67 | a written number has a minus sign exactly when negative, no plus sign, and no leading zero |
| SchemaMigration.PlanUnique | internal/storage/migrate.go:88-143 | the chain to pick is determined by the set of registered migrations |
| SchemaMigration.PlanIsLeast | internal/storage/migrate.go:88-143 | any other chain is longer than the plan, or as long with a larger version where the two first differ |
| SchemaMigration.PlanSuffix | internal/storage/migrate.go:76-160 | what remains of a plan after any number of steps is the plan for what remains |
| SchemaMigration.ChainIncreases | internal/storage/migrate.go:34-36 | along a chain of registered migrations versions strictly increase and stay between start and target |
| MigrationSearch.BuildAdjacency | internal/storage/migrate.go:102-105 | the adjacency list of a version holds the targets of its edges in registry order |
| MigrationSearch.FindEdge | internal/storage/migrate.go:134-139 | the migration found for a pair of versions is the only registered one |
| MigrationSearch.Expand | internal/storage/migrate.go:130-142 | expanding a version appends one node for each edge to an unvisited version, and nothing else |
| MigrationSearch.HeadIsPlan | internal/storage/migrate.go:116-128 | a version not yet visited leaves the queue with the ShortLex least of all chains to it |
| MigrationSearch.ExpandKeepsSearch | internal/storage/migrate.go:128-142 | visiting a version keeps the search invariant: sorted queue, best paths recorded, every crossing edge queued |
| MigrationSearch.FindPath | internal/storage/migrate.go:107-148 | the search returns the plan when the target is reachable and the empty path exactly when no chain exists, after at most one more dequeue than there are migrations |
| MigrationRunner.SortByKey | internal/storage/migrate.go:90-95 | the registry is permuted into key order |
| MigrationRunner.Migrator.RegisterMigration | internal/storage/migrate.go:30-46 | exactly the valid, forward, new migrations are appended; the error says which check failed first |
| MigrationRunner.Migrator.WriteSchemaVersion | internal/storage/migrate.go:64-74 | the written version is the one detected afterwards |
| MigrationRunner.Migrator.MigrateForward | internal/storage/migrate.go:76-163 | a run starts from 0 without a version file and from the number in it otherwise, and ends at once when it holds none; it is backward, a no-op, unreachable, or one pass over the plan, ends as its last step did, and leaves the text of the last committed version, or the file as it was |
| MigrationRunner.Migrator.RunSteps | internal/storage/migrate.go:150-160 | steps are attempted in order until one is not done, and the stored version follows the committed ones |
| MigrationRunner.Migrator.Restarts | internal/storage/migrate.go:76-163 | repeated runs, whatever their fates, form a series from the first stored version to the last, and the journal is the series |
| MigrationRunner.CrashRetry | internal/storage/migrate.go:76-160 | over any series of runs every attempt is at the first uncommitted step of the original chain, and the rest of the chain is the plan from the stored version |
| MigrationRunner.CrashRetryCompletes | internal/storage/migrate.go:76-160 | when a run finally succeeds, the committed steps are the original chain, in order and once each |
| MigrationRunner.StoredVersionRises | internal/storage/migrate.go:150-160 | the stored version changes only when a step commits, then strictly increases, and never passes the target |
| MigrationRunner.RunDeterministic | internal/storage/migrate.go:88-160 | registration order never matters: the registered set, the versions and the fates decide the whole run |
| Text.LinesOfJoin | internal/storage/linux.go:1576-1620 | splitting into lines undoes joining |
| Text.FieldsTrim | internal/storage/linux.go:1524-1528 | trimming a line does not change its fields |
| Text.FieldsOfJoin | internal/storage/linux.go:1637 | the fields of space-joined words are the non-empty ones |
| Text.FieldsAtSpace | internal/storage/linux.go:1528 | each whitespace character separates the fields before it from those after it |
| Text.TrimSpaceMeans | internal/storage/linux.go:1524 | trimming takes whitespace off both ends, and all of it |
| Text.SpaceCodes | internal/storage/linux.go:1524-1528 | which characters are whitespace |
| Interfaces.ParseIfacesFile | internal/storage/linux.go:1516-1573 | the loop computes the meaning of the last inet stanza: last value of each key, netmask turned into a prefix |
| Interfaces.RewriteIfacesFile | internal/storage/linux.go:1575-1621 | the loop keeps exactly the lines of the declared rewrite, trims blank lines at the end, and appends the stanza |
| Interfaces.BuildIfaceStanza | internal/storage/linux.go:1623-1641 | the built text is the stanza's lines, each ended by a newline |
| InterfacesFiles.WordLineGoes | internal/storage/linux.go:1589-1613 | of the lines made of words exactly those go that are `auto`/`allow-...` with the name among the words, or `iface` with the name first |
| InterfacesFiles.SharedAutoLineGoes | internal/storage/linux.go:1592-1604 | an `auto` or `allow-...` line that names the interface is never kept, whatever else it names |
| InterfacesFiles.OptionsGo | internal/storage/linux.go:1581-1587 | indented lines go with the entry above them when it is the interface's `iface` line, and only then |
| InterfacesFiles.CommentsStay | internal/storage/linux.go:1523-1527 | comments and empty lines stay and end no entry |
| InterfacesFiles.RewrittenText | internal/storage/linux.go:1615-1620 | the text is the kept lines without blank ones at the end, an empty line, and the new stanza |
| InterfacesFiles.BuiltText | internal/storage/linux.go:1623-1641 | the text of a stanza line by line, with the lines that have nothing to say left out |
| InterfacesFiles.EntryRead | internal/storage/linux.go:1527-1536 | `iface <name> inet <method>` starts the interface's configuration afresh, and no other line made of words changes it |
| InterfacesFiles.SettingRead | internal/storage/linux.go:1538-1556 | what one more setting line changes in the configuration read, key by key |
| InterfacesFiles.ForeignSettings | internal/storage/linux.go:1538-1540 | settings under another entry change nothing |
| InterfacesFiles.AddressWithPrefix | internal/storage/linux.go:1557-1568 | an address without a slash gets one and the netmask's prefix length in decimal, any other is returned as it is |
| InterfacesFiles.NetmaskRead | internal/storage/linux.go:1545-1568 | an address and a separate netmask line are read back as one address with a prefix length |
| InterfacesLaws.LastWriteWins | internal/storage/linux.go:1575-1641 | rewriting with a built stanza and then with any stanza equals rewriting once with the second, byte for byte |
| InterfacesLaws.RoundTrip | internal/storage/linux.go:1516-1641 | parsing a rewritten file returns the written configuration without what the file cannot say, and when that is the configuration itself |
| InterfacesFrame.AlwaysInStep | internal/storage/linux.go:1522-1554 | for every file the parser of another interface runs in step on the file and on what survives of it, which gives the old stanza with the leaked settings appended |
| InterfacesFrame.LeaksIffLeaked | internal/storage/linux.go:1587-1609 | settings leak exactly when some option line sits under a dropped auto/allow- line right after the other interface's last stanza |
| InterfacesFrame.KeptExactly | internal/storage/linux.go:1580-1613 | the kept lines are, in order, exactly those that are neither a dropped auto/allow- or iface line nor an option line under a dropped iface line |
| InterfacesFrame.StanzaFrame | internal/storage/linux.go:1575-1641 | rewriting appends the leaked settings to another interface's stanza, which is unchanged exactly when there are none |
| InterfacesFrame.Frame | internal/storage/linux.go:1516-1641 | the configuration parsed for another interface is unchanged exactly when it has no stanza, its stanza is not static, or the leaked gateway, DNS and address values are the stanza's own |
| InterfacesFrame.FrameForAll | internal/storage/linux.go:1575-1641 | with no option line under a dropped auto/allow- line every other interface reads as before |
| InterfacesFrame.FrameFails | internal/storage/linux.go:1587-1609 | a file family where the address under a dropped auto line becomes another interface's address |
| Anomaly.AnomalyScore | internal/storage/linux.go:7606-7638 | the loops compute mean, deviation and score; fewer than three values give no anomaly |
| Anomaly.ScoreMeans | internal/storage/linux.go:7612-7626 | the squared score times the variance is the squared distance of the latest value from the mean; the score is 0 without variance |
| Anomaly.VarianceByMoments | internal/storage/linux.go:7612-7621 | n times n variances are n times the sum of squares minus the squared sum, so the divisor is n |
| Anomaly.Round2Means | internal/storage/linux.go:7634 | rounding gives a multiple of a hundredth, at most half a hundredth away, halves up |
| Anomaly.CauchySchwarz | internal/storage/linux.go:7609-7617 | the squared sum of n deviations is at most n times the sum of their squares |
| Anomaly.Samuelson | internal/storage/linux.go:7609-7617 | the latest of n values is at most n-1 variances, squared, from the mean |
| Anomaly.ScoreBound | internal/storage/linux.go:7609-7622 | the squared score of n values is at most n-1 |
| Anomaly.OneOffScore | internal/storage/linux.go:7612-7626 | the bound is met: n-1 equal values and a different latest one have the squared score n-1 |
| Anomaly.AnomalyNeedsEleven | internal/storage/linux.go:7609-7623 | an anomaly needs at least eleven values |
| Anomaly.ElevenAreEnough | internal/storage/linux.go:7609-7623 | ten equal values and a different one are always an anomaly, so eleven is the exact bound |
| DockerLogs.ContainerLogs | internal/storage/linux.go:1283-1303 | the loop stays in bounds, ends, and collects the payload bytes, or returns the body when there are none |
| DockerLogs.FrameBytes | internal/storage/linux.go:1287-1296 | four bytes are skipped, four give the size with the most significant first, and a payload that is cut short gives what there is |
| DockerLogs.PayloadOfFrames | internal/storage/linux.go:1286-1297 | whole frames give their payloads and what follows is read as if it stood alone |
| DockerLogs.DemuxInvertsFraming | internal/storage/linux.go:1286-1303 | demultiplexing framed payloads returns them exactly when one is non-empty or there is no frame |
| DockerLogs.AnyBytes | internal/storage/linux.go:1286-1297 | any bytes are whole frames and a cut piece, and give the payloads and the bytes the cut piece has |
| Monitor.AlertStore.Raise | internal/monitor/monitor.go:371-396 | raising is suppressed or records, caps the list and prunes the map, as the step function says |
| Monitor.AlertStore.Dismiss | internal/monitor/monitor.go:185-194 | the newest alert with the id goes, nothing else |
| Monitor.RaiseDoes | internal/monitor/monitor.go:371-396 | a raise is suppressed for an hour after the last of its key; any other puts an alert with these fields before the newest 99 and forgets keys quiet for over two hours |
| Monitor.DismissDoes | internal/monitor/monitor.go:185-194 | the newest alert with the id is taken out, the rest stays in order |
| Monitor.DedupRefinesHistory | internal/monitor/monitor.go:371-396 | with a clock that does not go back, a raise is suppressed exactly when the full history has an alert of the key less than an hour old |
| Monitor.ListShowsHistory | internal/monitor/monitor.go:185-194 | the list is recorded alerts, newest first, at most 100; a missing one was dismissed by id after it was recorded, or has 100 newer ones |
| Audit.Logger.LogEnriched | internal/audit/audit.go:66-89 | the new log is the stamped entry before the old ones, capped, and trimmed at the old end |
| Audit.Logger.Recent | internal/audit/audit.go:92-101 | the newest n entries, or all of them |
| Audit.Logger.SetRetentionDays | internal/audit/audit.go:48-52 | the retention is replaced |
| Audit.RecordedMeans | internal/audit/audit.go:67-73 | a given time is kept and a missing one stamped; with anonymising on an address becomes 0.0.0.0; nothing else changes |
| Audit.AnonymousLog | internal/audit/audit.go:71-73 | while addresses are anonymised the log holds none |
| Audit.NoRetentionKeepsAll | internal/audit/audit.go:74-77 | without retention the log is the newest 1000 of all entries |
| Audit.CutoffExact | internal/audit/audit.go:78 | when the 64-bit duration does not wrap |
| Audit.ReplayIsCappedLog | internal/audit/audit.go:74-87 | however the retention changes, the log is the newest 1000 entries of the log without a cap |
| Audit.LogIsRecentHistory | internal/audit/audit.go:66-87 | with entry times and cutoffs that do not go back, the log is exactly the latest 1000 entries of the history not before the cutoff |
| Audit.LogHolds | internal/audit/audit.go:74-87 | the log is the newest part of the history, holds nothing before the cutoff, and stops only at such an entry, at 1000, or at the end |
| Audit.FixedRetentionRises | internal/audit/audit.go:77-78 | a fixed retention and a clock that does not go back give such cutoffs |
| Scheduler.Pool.Prune | internal/scheduler/scheduler.go:168-184 | pruning deletes the oldest automatic snapshots beyond the ones to keep, as far as deletions succeed, and leaves the others in place |
| Scheduler.Pool.RunSnapshot | internal/scheduler/scheduler.go:147-165 | a run creates, prunes when there is a number to keep, and marks only the first schedule with the id; a failed creation changes nothing |
| Scheduler.PruneSpares | internal/scheduler/scheduler.go:168-184 | no other snapshot is lost, and no deleted one is newer than a kept automatic one |
| Scheduler.ManualSurvives | internal/scheduler/scheduler.go:173-178 | a snapshot whose name does not begin with `auto-` survives pruning |
| Scheduler.MadeCounts | internal/scheduler/scheduler.go:148-154 | the snapshot a run makes is one pruning counts, and is kept when it is the newest |
| Scheduler.PruneExactly | internal/scheduler/scheduler.go:180-183 | an automatic snapshot goes exactly when it is older than the last Keep and its deletion succeeds |
| Scheduler.PruneKeeps | internal/scheduler/scheduler.go:180-183 | when deletions succeed exactly min(Keep, n) automatic snapshots are left |
| BruteForce.BruteForceTracker.RecordUsernameFailure | internal/auth/bruteforce.go:96-115 | a failure counts in its window, restarts a lapsed one, and bans at the threshold |
| BruteForce.BruteForceTracker.IsUsernameBanned | internal/auth/bruteforce.go:117-131 | whether a ban is in force |
| BruteForce.BruteForceTracker.RecordUsernameSuccess | internal/auth/bruteforce.go:133-140 | a success forgets the failures |
| BruteForce.BruteForceTracker.SetThresholds | internal/auth/bruteforce.go:169-181 | only positive thresholds are taken over |
| BruteForce.FailureRecord | internal/auth/bruteforce.go:96-115 | every field of the record a failure leaves, and that no other record changes |
| BruteForce.FailuresBan | internal/auth/bruteforce.go:96-115 | enough failures in one window ban the username for the ban time |
| BruteForce.FailuresNoBan | internal/auth/bruteforce.go:96-115 | fewer failures than the threshold in one window do not ban |
| BruteForce.FailureKeepsBan | internal/auth/bruteforce.go:104-114 | exactly when one more failure keeps a ban |
| BruteForce.BanForgotten | internal/auth/bruteforce.go:104-114 | with the default thresholds five failures ban, and a sixth after the window lifts the ban |
| UserStore.UserStore.Register | internal/auth/userstore.go:153-173 | the state and the first failing check are those of the specification |
| UserStore.UserStore.RegisterExternal | internal/auth/userstore.go:458-478 | likewise for users managed elsewhere |
| UserStore.UserStore.Login | internal/auth/userstore.go:175-243 | every outcome of a login, with its effect on users, sessions and failure records |
| UserStore.UserStore.ConsumeBackupCode | internal/auth/userstore.go:685-700 | the user's first matching backup code is used up; without a user or a match nothing changes |
| UserStore.UserStore.IssueToken | internal/auth/userstore.go:481-518 | a session for an existing, enabled user |
| UserStore.UserStore.ValidateToken | internal/auth/userstore.go:315-327 | the session's user and role, unless it has expired, in which case it goes |
| UserStore.UserStore.PruneExpiredSessions | internal/auth/userstore.go:329-339 | exactly the expired sessions go |
| UserStore.UserStore.Logout | internal/auth/userstore.go:341-346 | the token's session goes |
| UserStore.UserStore.DeleteUser | internal/auth/userstore.go:358-377 | the user and all the user's sessions go |
| UserStore.UserStore.SetRole | internal/auth/userstore.go:379-397 | the role changes and the user's sessions get the zero expiry |
| UserStore.UserStore.SetDisabled | internal/auth/userstore.go:616-634 | disabling also ends the user's sessions |
| UserStore.UserStore.RevokeAllSessionsForUser | internal/auth/userstore.go:601-613 | the user's sessions go and are counted |
| UserStore.UserStore.RevokeSessionByPrefix | internal/auth/userstore.go:580-599 | one session with the prefix goes, or the error says why none does |
| UserStore.UserStore.UpdateUser | internal/auth/userstore.go:649-659 | the record of an existing user is replaced |
| UserTable.UpdateKeepsConsistent | internal/auth/userstore.go:649-659 | exactly when replacing a record keeps sessions in step with users |
| UserEffects.LoginAnswers | internal/auth/userstore.go:175-243 | exactly when each answer of a login is given |
| UserEffects.RefusalIsRecorded | internal/auth/userstore.go:188-218 | a wrong password or second factor is recorded against a local user, and nothing else changes |
| UserEffects.GrantLeaves | internal/auth/userstore.go:220-240 | a granted login opens this session, sets the last login, and leaves a local user no failure record |
| UserEffects.TokenByStanding | internal/auth/userstore.go:481-518 | exactly when a token is issued, and its session |
| UserEffects.RegisterGives | internal/auth/userstore.go:153-173 | exactly when an account can be registered, why not, and its record |
| UserEffects.RegisterExternalGives | internal/auth/userstore.go:458-478 | likewise for users managed elsewhere |
| UserEffects.RecordsAfter | internal/auth/userstore.go:358-397 | a change of role or state changes that field only, a deletion takes out one record, and the reasons for doing nothing |
| UserEffects.StandingIsSet | internal/auth/userstore.go:358-397 | the role and state a user has after each operation on it |
| UserEffects.StandingLasts | internal/auth/userstore.go:153-397 | a user's role and state last through any run that does not set them |
| UserEffects.LaterLogin | internal/auth/userstore.go:175-243 | after disabling, deletion or a change of role, any later login is refused or gives the new role |
| UserEffects.UpdateReplaces | internal/auth/userstore.go:649-659 | the record of an existing name becomes the given one and no other changes |
| UserEffects.AcceptedUntilExpiry | internal/auth/userstore.go:315-327 | a token is accepted up to its expiry, and asking only removes an expired session |
| UserEffects.OneTokenEnds | internal/auth/userstore.go:341-346 | logout and revoking by prefix end that token and no other |
| UserEffects.PruningIsSilent | internal/auth/userstore.go:329-339 | pruning removes expired sessions and changes no later answer |
| UserEffects.OthersKeepTokens | internal/auth/userstore.go:358-397 | operations on a user leave the tokens of everyone else as they were |
| UserEffects.OwnSessionsEnd | internal/auth/userstore.go:358-397 | what becomes of the user's own sessions |
| UserRuns.UpdateLeavesStaleRole | internal/auth/userstore.go:649-659 | a run in which a token still reports the role from before a record update |
| UserTable.LoginKeepsConsistent | internal/auth/userstore.go:175-243 | a login keeps names unique and sessions in step with users |
| UserTable.SetRoleKeepsConsistent | internal/auth/userstore.go:379-397 | a role change keeps sessions in step with users |
| UserTable.DeleteKeepsConsistent | internal/auth/userstore.go:358-377 | a deletion leaves no session without a user |
| UserTable.SetDisabledKeepsConsistent | internal/auth/userstore.go:616-634 | disabling leaves no session of a disabled user |
| UserRuns.AcceptedTokensAreCurrent | internal/auth/userstore.go:153-397 | after any run usernames are unique and an accepted token is of an existing, enabled user and reports the current role |
| UserRuns.LoginGranted | internal/auth/userstore.go:175-243 | a login is granted exactly when the username is not banned and the user, password and second factor allow it; its token is accepted exactly until its expiry |
| UserRuns.BackupCodeUsedOnce | internal/auth/userstore.go:193-243 | a granted login changes only the last-login time and, when the code is not the TOTP code, takes away the first backup code it matches and no other |
| UserRuns.SigningOut | internal/auth/userstore.go:358-397 | deleting, disabling, changing the role or revoking leaves the user no session that can be accepted |
| UserRuns.RevocationLasts | internal/auth/userstore.go:315-397 | a signed-out user has no accepted token until the next login or issued token |
| UserRuns.SessionLasts | internal/auth/userstore.go:315-397 | a session stays accepted until its expiry in every run that does not end it by name |
| UserRuns.LockOutPersists | internal/auth/userstore.go:183-191 | once banned, every login for the username fails until the ban ends, whatever else the run does |
| UserRuns.GuessesAreRecorded | internal/auth/userstore.go:183-218 | up to the threshold, a username's failure record in any run is that of its wrong passwords and codes alone |
| UserRuns.WrongLoginsLockOut | internal/auth/userstore.go:183-243 | as many wrong passwords or second factors for a username as the threshold, within one window and among any other operations, make every later login for it fail until the ban ends, whatever happens meanwhile |
| AuditCsv.AuditLogExport | internal/api/router.go:4281-4288 | the export is the header line and one line for each entry |
| AuditCsv.RowText | internal/api/router.go:4282-4286 | a row is its escaped fields with commas between them, and the line end |
| AuditCsv.EscapeMeans | internal/api/router.go:4290-4295 | a field is quoted exactly when it holds a comma, a quote, CR or LF |
| AuditCsv.QuotesAreDoubled | internal/api/router.go:4292 | quotes are doubled and nothing else is changed |
| AuditCsv.ReadField | internal/api/router.go:4290-4295 | a reader recovers an escaped field, whatever characters it holds |
| AuditCsv.TableRoundTrip | internal/api/router.go:4281-4295 | reading a written table returns every row and field, with LF or CRLF row ends |
| AuditCsv.ExportReadsBack | internal/api/router.go:4273-4295 | the export reads back as the six column names and the six values of each entry, in that order |
| License.LengthIsExact | internal/license/license.go:124-126 | within the size limits the wrapping length check compares exact numbers |
| License.VerifySeal | internal/license/license.go:110-138 | opening an encoded token returns payload, signature and signed message |
| License.AcceptedIsSealed | internal/license/license.go:131-136 | header, payload and signature partition an accepted token |
| License.VerifyAccepts | internal/license/license.go:110-138 | a token passes exactly when it encodes a payload that fits with a valid signature |
| License.VerifyAnswers | internal/license/license.go:110-138 | exactly when each error is given, and the parts of an accepted token by their offsets |

## Left out

- Apply routines, log callback and temporary files: a step is an event with a fate, and a failed version write leaves the file as it was.
- MigrationRunner.Migrator.WriteSchemaVersion: the errors of the temporary file and the rename are not returned by it; a write that fails is a step with the fate WriteFails.
- Process identity and locks: operations are atomic; Login's release of the lock while it uses up a backup code is not modelled.
- Netmask conversion: the prefix length of a dotted netmask is a parameter, because it is library code.
- Text encoding: texts are sequences of Unicode characters; bytes that are not valid UTF-8 are not modelled.
- Anomaly metrics: the collection of values, floating-point rounding and the message text; the square root is an exact parameter.
- Alert delivery: webhooks and mail after an alert is recorded; alert ids are the clock reading, not its decimal text.
- Audit entry fields: source, role, user agent and resource, which no modelled operation looks at, and the saved file.
- Snapshot names: the time format in them is a parameter; deletions and listings succeed or fail by parameter.
- Schedules of other kinds: scrubs, replication and backup jobs.
- Failure records by address: the same code as for usernames, with a call to an external tool.
- User fields: WebAuthn credentials and the last address; TOTP enrolment, backup-code setting and password change, which keep name, role and enabled state and so are covered by record updates.
- Cryptography: password hashes, TOTP codes, tokens, signatures and the password-age policy are parameters.
- Licence payload: the JSON text, tier and expiry checks after the envelope.
- Saved files: writing users, sessions and entries to disk, and the errors that can give.
