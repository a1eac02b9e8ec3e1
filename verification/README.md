# A verified model of the Lambs server core

Lambs is a Go server that manages projects on one machine: it starts their processes and shared services,
proxies their ports, runs scheduled tasks, keeps user accounts, and browses their databases. This project models
the parts of it that are state machines, loops and arithmetic, and proves what they promise.

| module | models | main results |
|---|---|---|
| `Calendar`, `CronParse`, `CronSearch`, `CronSched`, `TaskRuns` | the cron engine and its scheduler | parsing inverts printing and denotes exactly the listed values; `nextAfter` is the unique sound and minimal answer; an exact condition for the search giving up; exact conditions for agreement with the documented and the POSIX day rule; the tick loop fires what the search lists |
| `SharedServices`, `LateStarts`, `Lifecycle`, `ProcTracking`, `ProxyRegistry` | process, shared-service and proxy managers under every interleaving | one live child per instance, exact reference counts, references equal to the online projects that declare a service, one tracked process per project, a registry that matches the open listeners |
| `RateLimiter`, `PortManager` | the sliding-window limiter and the port allocator | compacted and swept lists decide like the full history; no window holds more than the maximum; no two projects share a managed port; failure only when the range is used up |
| `Accounts`, `AccountRules`, `Credentials`, `Tokens`, `ResetCodes` | users, passwords, tokens and reset codes | an exact rule for when a stored password belongs to the current one, over all seven writers and all runs; a token is accepted exactly while no password was set since its row was read; the reset-code protocol over timed runs |
| `SortRows`, `DataBrowser`, `Gate`, `SqliteText` | the data browser's pipeline and two escape functions | the pages of a sweep partition the uniquely determined stable sort of the matching rows; escaping inverts the reader of its target language |

`Text` and `Wrappers` hold the routines of Go's standard library that these rely on. `dafny verify dfyconfig.toml`
checks the whole project.

Objects that the server updates in place are classes here, and loops are loops: each such method is proved against
a function of the old state, and the properties are proved of that function. The concurrent managers appear twice:
as classes whose methods are the regions that run under the mutex, and as transition systems whose steps are those
same regions plus process starts, exits and the like, in any order. Runs of the transition systems are sequences of
states in which every step was enabled.

## Where the code falls short of its own description

Each of these is proved of the model, most of them with the exact condition under which the code does meet its
description:

- `nextAfter` promises the zero time only for an expression that never fires. An expression that names no date but
  29 February gets it too when the search starts in the years before a century year without a leap day
  (`SearchGivesUp`, `LeapDayMissedInCenturyGap`).
- The cron header claims the standard rule for days. The code always requires the month; the `crontab` utility of
  POSIX.1-2017 (XCU, INPUT FILES) does not when the day of week is restricted (`AgreesWithPosix`, `PosixMonthInstance`). A day field such
  as `*/2` counts as unrestricted, and its values are ignored (`StarStepIgnored`, with `StarredWeekday` and
  `StarredDate`).
- A launch that is under way while the last project detaches is not stopped, nor is one whose startShared call is
  still to come, from an attach that has let go of the lock or from the health monitor's snapshot (`StopIsFinal`,
  `StopMissesLaunch`, `OrphanRun`, `LateCallRun`). The last delete in `Stop` can remove the entry of a process started meanwhile
  (`LaunchLosesTrack`, `StepTracks`, `UntrackedRun`).
- Editing the services or the host of an online project leaves references and status out of step
  (`UpdateAgreesExactly`, `UpdateCanBreak`).
- The port allocator compares port texts, so `03510` does not keep another project off 3510
  (`AllocateSharesExactly`, `PortsStayApart`, `SpellingCollides`).
- The proxy's default backend is the proxy's own port, which the guard against loops then skips
  (`NoBackendNoProxy`).
- Password writers do not keep the account usable for a plaintext sent with a salt at registration, for a plaintext
  of 64 hex digits, or for a digest sent to `HandleMePassword` on an account without a salt (`BareServes`,
  `WrappedServes`, `OwnChangeServes`, `SaltedPlaintextIsLost`). The rewrite during a login may put back an older password
  (`LateUpgradeServes`, `LateUpgradeRun`).
- `UpdateUser` writes the password before it checks the user's name, and keeps it when the row is refused
  (`RefusedUpdate`, `RefusedUpdateWrites`).
- The comment on pages says that no page means at most 500 rows; the REST source then returns the whole table
  (`NoPageIsUncapped`, `UncappedAnswer`).
- The comparison of the row sort is meant to be transitive. A cell `NaN` parses as a number and breaks that beside
  two different numbers (`ComparisonIsOrder`, `NaNBreaksOrder`).
- The limiter reads its clock before it takes the lock. With clocks out of order it lets more than the maximum into a
  window (`OutOfOrder`), though not into one shorter by twice the disorder (`DriftBound`).
- The offline page looks a project up by the first segment of the request with its query, so it misses the project
  of a one-segment path that is requested with a query (`BlockedIsFound`, `QueryIsMissed`). Its query is a prefix match for one row, so
  another project whose path starts with that segment may be rendered instead (`PageOfBlocked`, `SiblingRendered`).

## Model

| member | source | states |
|---|---|---|
| Calendar.DateOfDayNumber | internal/runtime/cron_parse.go:124-126 | day numbers and valid Gregorian dates are in bijection, which is what lets time.Date and AddDate be day arithmetic |
| Calendar.NextDayIsSuccessor | internal/runtime/cron_parse.go:140-140 | AddDate(0, 0, 1) is the successor in the calendar and in the week |
| Calendar.UnixEpoch | internal/runtime/cron_parse.go:109-110 | the calendar is anchored: 1 January 1970 was a Thursday |
| Text.AtoiReads | internal/runtime/cron_parse.go:33-33 | strconv.Atoi reads digits with or without a sign as their value within 64 bits |
| Text.AtoiRefuses | internal/runtime/cron_parse.go:33-36 | and refuses every other text |
| Text.FieldsApart | internal/runtime/cron_parse.go:77-77 | strings.Fields takes any white space as a separator of words |
| Text.TrimSpaceMeans | internal/handlers/projects.go:1192-1192 | strings.TrimSpace takes away white space at both ends, and all of it |
| Text.HasTextMeans | internal/handlers/projects.go:1197-1197 | strings.Contains finds a text exactly where it stands between two others |
| CronParse.FillPart | internal/runtime/cron_parse.go:62-64 | the stepping loop sets exactly the slots that the part denotes, keeps the others, and stays inside the 60 slots |
| CronParse.PartsParsed | internal/runtime/cron_parse.go:28-61 | a field parses when every part does; otherwise the error is that of the first bad part |
| CronParse.MultipleIsProduct | internal/runtime/cron_parse.go:62-62 | reached by adding the step means congruent to the low end modulo the step |
| CronParse.ParseCronField | internal/runtime/cron_parse.go:25-67 | for every text the loops give the declarative meaning of the field, or its error |
| CronParse.FieldDenotation | internal/runtime/cron_parse.go:25-67 | a parsed field is not empty, sets a slot exactly when some part denotes its value, and no slot beyond its range |
| CronParse.ParseCron | internal/runtime/cron_parse.go:76-99 | exactly five fields, each with its range, errors in field order |
| CronParse.ParsePrintedField | internal/runtime/cron_parse.go:25-67 | a printed list of items parses to exactly the values the items mean, restricted when no item is a star |
| CronParse.ParsePrintedExpression | internal/runtime/cron_parse.go:9-12 | every expression of the documented grammar parses, field by field, to what it says |
| CronParse.RangePart | internal/runtime/cron_parse.go:42-61 | for whatever texts around the first dash: read when both are numbers, in order, inside the field, else refused as no range or as out of bounds |
| CronParse.SinglePart | internal/runtime/cron_parse.go:52-61 | a text without dash and slash: read when it is a number inside the field, else refused as no number or as out of bounds |
| CronParse.SteppedPart | internal/runtime/cron_parse.go:31-37 | for whatever texts around the first slash: what stands before it with the step after it, refused when that is no positive number |
| CronParse.OnlyValidItemsParse | internal/runtime/cron_parse.go:31-61 | an item printed with any numbers parses exactly when it is valid: no step 0, no range backwards, nothing outside the field or beyond 64 bits |
| CronParse.OnlyValidExpressionsParse | internal/runtime/cron_parse.go:76-99 | an expression of five printed fields parses exactly when all their items are valid |
| CronParse.FirstBadField | internal/runtime/cron_parse.go:77-97 | an expression is refused for not having five fields or with the error of its first bad field |
| CronSearch.SpecIsParsed | internal/runtime/cron_parse.go:76-99 | every expression that parses has five nonempty fields |
| CronSearch.Scan | internal/runtime/cron_parse.go:101-120 | the reference scan: the first matching minute of an interval, or that none matches |
| CronSearch.NextAfter | internal/runtime/cron_parse.go:124-143 | the day-by-day search is sound and minimal: it matches, lies strictly after t, no minute in between matches, and no answer means no match in the horizon |
| CronSearch.NextFireIsNext | internal/runtime/cron_parse.go:122-143 | exactly one answer is sound and minimal, and the flat minute scan gives it |
| CronSearch.MinuteOfHourOfDay | internal/runtime/cron_parse.go:101-120 | minute k of hour h of day n fires exactly when the minute, the hour and the day are listed |
| CronSearch.FiresWhenNamed | internal/runtime/cron_parse.go:101-120 | of a printed expression it fires exactly when the items of the minute and of the hour mean k and h and the day matches |
| CronSearch.AnswerIsNamed | internal/runtime/cron_parse.go:124-143 | in hours and minutes: the answer is named by the expression, lies after t and before the 1830th midnight, nothing named lies in between, and nothing named is missed before that midnight |
| CronSearch.NineOClock | internal/runtime/cron_parse.go:124-143 | "0 9 * * *" fires at nine for every time before nine of any day |
| CronSearch.SearchGivesUp | internal/runtime/cron_parse.go:122-143 | the zero time comes back exactly for expressions that name no date, or name only 29 February and start in a leap gap with no fire left today |
| CronSearch.CanFireMeans | internal/runtime/cron_parse.go:101-120 | whether any minute at all fires can be read off the day fields |
| CronSearch.SearchIsComplete | internal/runtime/cron_parse.go:122-143 | whatever can fire is found when the 1830 days cross no skipped leap day |
| CronSearch.LeapDayMissedInCenturyGap | internal/runtime/cron_parse.go:122-123 | "0 0 29 2 *" can fire, yet from 1 March 2096 the search finds nothing |
| CronSearch.FollowsDocumentedRule | internal/runtime/cron_parse.go:9-12 | with day fields that are exactly a star or free of stars, the code's rule is the documented one on every day |
| CronSearch.AgreesWithPosix | internal/runtime/cron_parse.go:101-120 | exactly when the code agrees with the POSIX day rule on all days |
| CronSearch.PosixMonthInstance | internal/runtime/cron_parse.go:105-119 | with month 1 and day of week 1 the code fires on the Mondays of January, POSIX on every Monday and all of January |
| CronSearch.StarStepIgnored | internal/runtime/cron_parse.go:38-41 | for every expression: exactly when treating a field that holds a star as unrestricted makes no difference to the documented rule |
| CronSearch.StarredWeekday | internal/runtime/cron_parse.go:108-119 | with * and */2 for the day fields the code fires every day of its months, the rule names four weekdays |
| CronSearch.StarredDate | internal/runtime/cron_parse.go:108-119 | with */2 and 1 for the day fields the code fires on Mondays only, the rule adds every odd day |
| CronSched.Scheduler.CronTickOnce | internal/runtime/cron_sched.go:222-247 | one pass fires and records exactly the due rows that have not fired in this minute |
| CronSched.TickIsLocal | internal/runtime/cron_sched.go:236-246 | what a pass does to a task depends on its own row alone |
| CronSched.FiresOncePerMinute | internal/runtime/cron_sched.go:249-258 | over any run a task fires exactly once in each minute that a pass sees and its expression matches |
| CronSched.NoMinuteMissed | internal/runtime/cron_sched.go:251-258 | with a pass in every minute those are all matching minutes of the run |
| CronSched.IterationListsMatches | internal/runtime/cron_parse.go:124-143 | restarting the search from each answer lists all matching minutes, exactly when the expression does not name 29 February alone with a restart in a leap gap that hides a fire |
| CronSched.SchedulerFollowsSearch | internal/runtime/cron_sched.go:222-258 | the fire minutes of a run are the iterated answers of nextAfter, exactly under that same condition on the expression and the calendar |
| CronSched.OnlyLeapDaysGiveUp | internal/runtime/cron_sched.go:222-258 | an expression that names any date besides 29 February always fires what the search lists |
| CronSched.BadExpressionNeverFires | internal/runtime/cron_sched.go:237-240 | an expression that does not parse never fires |
| TaskRuns.TaskGuard.Claim | internal/runtime/cron_sched.go:190-197 | a second claim of a running task is refused and changes nothing |
| TaskRuns.ManualRunsExclude | internal/runtime/cron_sched.go:176-217 | under every interleaving the guard names exactly the tasks with an open manual run, and overlapping runs of a task are never both manual |
| TaskRuns.CronRunsOverlap | internal/runtime/cron_sched.go:244-245 | a cron run does execute beside a manual run of its task |
| SharedServices.ProcManager.AttachOne | internal/runtime/procmgr.go:391-405 | the locked region adds the reference, creating the instance if needed, and reports the first one |
| SharedServices.ProcManager.DetachOne | internal/runtime/procmgr.go:427-439 | the locked region drops the reference and unregisters the instance when none is left |
| SharedServices.ProcManager.ClaimLaunch | internal/runtime/procmgr.go:449-455 | the launch guard is taken exactly by a caller that finds the instance idle |
| SharedServices.ProcManager.AttachServices | internal/runtime/procmgr.go:383-417 | run to its end, the state is that of attaching every startable declaration in order with its launch when the reference is the first |
| SharedServices.ProcManager.DetachServices | internal/runtime/procmgr.go:421-445 | run to its end, the state is that of detaching every named declaration in order, and the stopped instances are those that lost their last reference, in that order |
| SharedServices.ProcManager.StartShared | internal/runtime/procmgr.go:448-509 | run to its end: a busy instance is left alone, an idle one runs the launch or stays idle when it fails, and no other instance changes |
| SharedServices.AttachStarts | internal/runtime/procmgr.go:383-417 | attaching gives every new name one instance that runs the launch made at its first declaration, and leaves all processes that were there alone |
| SharedServices.DetachNames | internal/runtime/procmgr.go:421-439 | detaching takes a name out of the map exactly when it is declared and nobody else holds the service |
| SharedServices.LeaversLeave | internal/runtime/procmgr.go:434-443 | the instances that detaching stops are those that leave the map, each once |
| SharedServices.LaunchStep | internal/runtime/procmgr.go:448-533 | every step of every thread keeps the launch protocol |
| SharedServices.RefStep | internal/runtime/procmgr.go:383-445 | every step of every thread keeps the reference-counting protocol |
| SharedServices.AliveFromSpawnToExit | internal/runtime/procmgr.go:482-508 | a launch is alive from its spawn to its exit, and at no other time |
| SharedServices.SingleLiveChild | internal/runtime/procmgr.go:448-533 | over every interleaving: at most one live child per instance, a live or published child implies starting, and the cmd and done that stopShared reads belong to one launch of that instance |
| SharedServices.ReferenceCountsExact | internal/runtime/procmgr.go:383-445 | over every interleaving: registered services have references, every instance was started exactly once, and stopped exactly once if it left the map |
| SharedServices.StartsOnFirstReference | internal/runtime/procmgr.go:397-408 | attach starts exactly when no instance of that name has a reference |
| SharedServices.RemovedForGood | internal/runtime/procmgr.go:435-438 | an instance that left the map never regains a reference |
| SharedServices.StopWaitsForExit | internal/runtime/procmgr.go:513-533 | when stopShared returns, the process it saw is gone and no instance names it |
| SharedServices.StopMissesLaunch | internal/runtime/procmgr.go:518-521 | when stopShared sees no process, a launch is under way exactly if the instance is starting |
| LateStarts.StopIsFinal | internal/runtime/procmgr.go:513-533 | whatever all threads do afterwards: a child can outlive a stopShared call exactly when, as the call reads the instance, a launch of it is on its way or a startShared call for it is still to come |
| SharedServices.OrphanRun | internal/runtime/procmgr.go:421-445 | a run in which detaching during a launch leaves a live child without references |
| LateStarts.OwedCalls | internal/runtime/procmgr.go:404-407 | a startShared call is owed exactly for the new instance of an attach that finds no reference on the name, and for a service the monitor looks at, until it is made or skipped |
| LateStarts.EventKeeps | internal/runtime/procmgr.go:383-445 | the launch and reference protocols hold with the startShared calls to come, of attaches and of the health monitor, accounted for |
| LateStarts.LateCallRun | internal/runtime/procmgr.go:404-407 | a run in which the startShared call of an attach comes after its only reference was dropped and stopped |
| Lifecycle.Dedupe | internal/handlers/projects.go:568-576 | keeps the first declaration of every name, in order |
| Lifecycle.DedupedNames | internal/handlers/projects.go:566-576 | no name is registered twice and none is lost |
| Lifecycle.DedupedFirsts | internal/handlers/projects.go:566-576 | what is kept are exactly the first declarations of their names, in their order |
| Lifecycle.StatusCycle | internal/handlers/projects.go:861-877 | without a status online goes to offline, offline to maintenance, maintenance to online, and three changes lead back; with one of the three the project goes there, with any other nothing happens |
| Lifecycle.Server.CreateProject | internal/handlers/projects.go:600-635 | an online local project attaches its services, with their launches, once its row is stored; any other touches no service |
| Lifecycle.Server.PatchProjectStatus | internal/handlers/projects.go:846-933 | the three-state cycle, the whitelist and the same-status guard; going online on this machine attaches with the launches, leaving it detaches |
| Lifecycle.Server.DeleteProject | internal/handlers/projects.go:819-844 | detaches with the services of the row, then removes it |
| Lifecycle.Server.UpdateProject | internal/handlers/projects.go:784-809 | replaces declarations and host and touches no service |
| Lifecycle.EditExactly | internal/handlers/projects.go:784-809 | an edit replaces the declarations if there are new ones and the host if it is named, and leaves status, other projects and services alone |
| Lifecycle.EventAgrees | internal/handlers/projects.go:819-933 | one event keeps references and status in step exactly when it does not edit what the project holds |
| Lifecycle.UpdateAgreesExactly | internal/handlers/projects.go:784-809 | an edit keeps them in step exactly when the project holds the same services before and after |
| Lifecycle.UpdateCanBreak | internal/handlers/projects.go:784-809 | giving an online project its first service does break it |
| Lifecycle.StatusAndRefsAgree | internal/handlers/projects.go:609-632 | over every run, references equal the online local projects that declare the service at every moment, if and only if no edit changes what a project holds |
| Lifecycle.ReferencedExactly | internal/handlers/projects.go:609-632 | written out: in such a run a project holds a reference exactly while it is online, on this machine, and declares the service with a start command |
| ProcTracking.ProcManager.Start | internal/runtime/procmgr.go:106-203 | a tracked project is left alone; otherwise exactly a launched process becomes tracked |
| ProcTracking.StepTracks | internal/runtime/procmgr.go:106-239 | every step keeps entries and processes in step, except a final delete of Stop that finds an entry |
| ProcTracking.OneTrackedProcess | internal/runtime/procmgr.go:106-239 | with no launching Start between a Stop's wait and its delete: at most one live process per project, all of them tracked |
| ProcTracking.TrackedExactly | internal/runtime/procmgr.go:186-236 | over any run: entries and processes are always in step exactly when no final delete ever finds an entry |
| ProcTracking.LaunchLosesTrack | internal/runtime/procmgr.go:106-236 | a launch can lead to a live process that nothing tracks exactly when, as it starts, a Stop of its project has yet to reach its final delete |
| ProcTracking.UntrackedRun | internal/runtime/procmgr.go:234-236 | a run that ends with two live processes of one project |
| ProxyRegistry.TCPProxy.Start | internal/runtime/tcpproxy.go:82-126 | a registered project is left alone; otherwise the row decides, and a listener and its counter are registered together or not at all |
| ProxyRegistry.NoBackendNoProxy | internal/runtime/tcpproxy.go:96-116 | a project without a backend of its own is never proxied: the default backend is the proxy's own port |
| ProxyRegistry.ProxiedExactly | internal/runtime/tcpproxy.go:91-120 | exactly these projects are proxied: a usable port, a backend, and no way back to the port itself |
| ProxyRegistry.SplitsExactly | internal/runtime/tcpproxy.go:59-62 | net.SplitHostPort reads a text exactly when it is host and port with a colon between them, the host in brackets where it holds colons, and no other bracket or colon |
| ProxyRegistry.NamedBackend | internal/runtime/tcpproxy.go:58-64 | a backend of host and port, with or without http://, is skipped exactly when the port is the proxy's own and the host is localhost or loopback |
| ProxyRegistry.BracketedBackend | internal/runtime/tcpproxy.go:58-64 | so is an address in brackets |
| ProxyRegistry.BarePortBackend | internal/runtime/tcpproxy.go:106-115 | a bare port is skipped exactly when it is the proxy's own |
| ProxyRegistry.UnreadableBackend | internal/runtime/tcpproxy.go:59-62 | a backend with more than one colon and no bracket is never taken for a loop |
| ProxyRegistry.TCPProxy.ServeExit | internal/runtime/tcpproxy.go:129-138 | a dying serve loop removes only its own listener |
| ProxyRegistry.TCPProxy.Stop | internal/runtime/tcpproxy.go:176-185 | closes the registered listener and removes both entries |
| ProxyRegistry.RegistryExact | internal/runtime/tcpproxy.go:82-185 | in every reachable state both maps agree, every open listener is the registered one, and every counter is the number of its handlers at work |
| ProxyRegistry.OpensAndCloses | internal/runtime/tcpproxy.go:116-126 | Start opens the listener of a project that had none, and Stop leaves the project without an open one |
| ProxyRegistry.OldLoopHarmless | internal/runtime/tcpproxy.go:129-138 | a registered listener leaves exactly by Stop or by the end of its own loop |
| ProxyRegistry.StaysRegistered | internal/runtime/tcpproxy.go:128-185 | without Stop and without a failing listener a project stays registered for ever |
| RateLimiter.CompactInPlace | internal/auth/ratelimit.go:67-72 | compacting into the shared backing array gives the filtered list |
| RateLimiter.Limiter.Sweep | internal/auth/ratelimit.go:60-66 | drops exactly the addresses whose last hit is older than a window |
| RateLimiter.Limiter.Allow | internal/auth/ratelimit.go:53-85 | one request gets the decision of the specification and leaves its hit lists |
| RateLimiter.AnswersByHistory | internal/auth/ratelimit.go:53-85 | after every ordered run the answer is that of counting all accepted requests within the window |
| RateLimiter.NeverMoreThanMax | internal/auth/ratelimit.go:52-52 | the history definition lets at most max requests into any half-open window, in any order of clocks |
| RateLimiter.AcceptedIsHistory | internal/auth/ratelimit.go:53-85 | the requests the limiter lets through are the history |
| RateLimiter.LimiterBound | internal/auth/ratelimit.go:52-52 | no half-open interval of one window holds more than max accepted requests of one address |
| RateLimiter.AllowedExactly | internal/auth/ratelimit.go:53-85 | for ordered clocks a request passes exactly when fewer than max of its address passed in the window that ends with it |
| RateLimiter.SweepsWhenLarge | internal/auth/ratelimit.go:60-66 | other addresses keep their lists up to ten thousand addresses; beyond that exactly those whose last hit is more than a window old are dropped |
| RateLimiter.DriftBound | internal/auth/ratelimit.go:53-85 | with clocks up to d out of order, no interval shorter than a window by 2d holds more than max accepted requests of one address |
| RateLimiter.SweepForgets | internal/auth/ratelimit.go:60-66 | a sweep can forget a hit that a decision from an earlier clock would still count |
| RateLimiter.OutOfOrder | internal/auth/ratelimit.go:56-57 | with the clocks 0, 1, 11 and 2 three requests pass within a window of ten that allows two |
| PortManager.FirstUsable | internal/runtime/portmgr.go:30-44 | the lowest port that is neither held by another project nor unbindable |
| PortManager.Manager.Allocate | internal/runtime/portmgr.go:20-45 | the port already held, or the first usable one, recorded in the project's row if there is one |
| PortManager.AllocateSharesExactly | internal/runtime/portmgr.go:30-43 | whatever ports can be bound, a new allocation shares none, exactly when every other managed port is written canonically |
| PortManager.SpellingCollides | internal/runtime/portmgr.go:32-32 | with a row "03510" another project can be given 3510 |
| PortManager.PortsStayApart | internal/runtime/portmgr.go:20-49 | no run of Allocate and Free makes two projects share a managed port, exactly when all managed ports are written canonically or there is no second row |
| PortManager.KeptUntilFreed | internal/runtime/portmgr.go:23-29 | a project is given the same port again until it is freed |
| PortManager.AllocationIsRecorded | internal/runtime/portmgr.go:42-43 | a project with a row has the port that it was told |
| PortManager.FailsOnlyWhenFull | internal/runtime/portmgr.go:30-45 | allocation fails exactly when every port is taken or unbindable, and then holders and unbindable ports count up to the range |
| Accounts.AuthServer.HandleLogin | internal/auth/auth.go:200-267 | the token goes to the named, active, verified user with the version read; only the rewrite of an account without a salt changes the tables |
| Accounts.AuthServer.RequireAuth | internal/auth/auth.go:130-163 | passes exactly an existing, active user whose version the token carries |
| Accounts.AuthServer.HandleRegister | internal/auth/auth.go:285-348 | the new row for a valid name and address while registration is open, or no change at all |
| Accounts.AuthServer.HandleMePassword | internal/auth/auth.go:380-430 | the new hash, salt and version, or no change at all |
| Accounts.AuthServer.CreateUser | internal/handlers/users.go:62-123 | the new row with a given or a picked password, or no change at all |
| Accounts.AuthServer.UpdateUser | internal/handlers/users.go:125-177 | with a known role and status, the password is written under the admin's own password, and stays written when the row is refused; an id without a row is no refusal |
| Accounts.RefusedUpdate | internal/handlers/users.go:139-175 | a refused update leaves the tables alone exactly when there was no password to write, or nobody or nothing to write it |
| Accounts.RefusedUpdateWrites | internal/handlers/users.go:160-175 | renaming an account to a taken name is refused and still sets its new password |
| Accounts.AuthServer.ResetPassword | internal/handlers/users.go:193-237 | the new hash and version for a caller whose role permits it, no change for an id without a row, and success in both cases |
| Accounts.AuthServer.DeleteUser | internal/handlers/users.go:179-191 | the row goes, if there is one, and nothing else changes |
| Accounts.AuthServer.HandleForgotRequest | internal/auth/forgot.go:61-117 | retires the user's codes and adds one, or changes nothing |
| Accounts.AuthServer.HandleForgotVerify | internal/auth/forgot.go:120-191 | checks the newest open code against both gates, charges a wrong one, and redeems a right one once |
| Accounts.UniqueKept | internal/handlers/users.go:172-175 | every handler keeps user names and addresses unique |
| AccountRules.HexOfPlain | internal/auth/auth.go:51-69 | plain characters pass for a digest or a salt exactly when they are 64 or 32 lower-case hex digits |
| AccountRules.NameLength | internal/auth/auth.go:299-302 | the limit of 64 counts bytes: 64 ASCII or 21 Han characters |
| AccountRules.NameCharacters | internal/auth/auth.go:26-28 | no accepted name holds a control character, white space, an angle bracket, a quote, a slash or an at sign |
| AccountRules.AddressesAccepted | internal/auth/auth.go:307-310 | an address is accepted exactly when it has an at sign and a dot after the last one |
| AccountRules.RegisteredExactly | internal/auth/auth.go:311-348 | registration adds exactly the active row that was asked for when the checks hold and name and address are free, and otherwise changes nothing |
| AccountRules.CreatedExactly | internal/handlers/users.go:73-110 | so does creation; without a password the row has the fresh salt |
| AccountRules.UpdatedExactly | internal/handlers/users.go:139-177 | an update goes through exactly when nobody else has the name or address and a password comes with the administrator's own; the row then has the name, address and status that were asked for, and nothing else changes |
| AccountRules.ResetExactly | internal/handlers/users.go:203-230 | a project admin changes no super admin's row and nobody he shares no project with, others than administrators change nothing, and a permitted reset changes hash and version of one row |
| AccountRules.LoginSalts | internal/auth/auth.go:226-240 | a login changes a row exactly where the plaintext proves the password of an active account without a salt, which then has the fresh one |
| AccountRules.OwnChangeKeeps | internal/auth/auth.go:397-426 | a user's own change gives an account without a salt the fresh one and keeps name, address and status |
| Credentials.VerifierMeetsContract | internal/auth/auth.go:74-89 | VerifyPassword takes exactly the plaintext and its salted digest, if and only if the stored hash belongs to that password and salt |
| Credentials.WrappedServes | internal/auth/forgot.go:171-183 | wrapping with the account's salt leaves a coherent hash exactly for a digest made with that salt or a plaintext that is not 64 hex digits |
| Credentials.BareServes | internal/auth/auth.go:314-329 | registration does so exactly under the same rule, with no salt beside a plaintext |
| Credentials.OwnChangeServes | internal/auth/auth.go:402-422 | a user's own change on an account without a salt does so exactly for plaintexts |
| Credentials.UpgradeServes | internal/auth/auth.go:230-238 | the rewrite during a login keeps the password |
| Credentials.WriterServes | internal/auth/auth.go:74-89 | after a write by any of the writers the account belongs to the new password exactly when the client kept to that writer's rule |
| Credentials.OthersKept | internal/auth/auth.go:230-238 | no action touches the password of another account |
| Credentials.StepCoherent | internal/handlers/users.go:73-229 | one action keeps all accounts coherent exactly when its client kept to the rule |
| Credentials.CoherentRuns | internal/auth/auth.go:74-89 | over every run all accounts are always coherent if and only if every write came from a client that kept to the rule |
| Credentials.UniqueRuns | internal/handlers/users.go:172-175 | over every run no two accounts have the same name or the same address |
| Credentials.OnlyTheCurrentPassword | internal/auth/auth.go:81-89 | then the verifier takes the current password and its salted digest, and nothing else |
| Credentials.PasswordIsNeeded | internal/auth/auth.go:214-226 | then a login gets a token, and a user or an administrator may write a password, exactly with a payload that proves the current password of an account, active where it logs in |
| Credentials.SaltedPlaintextIsLost | internal/auth/auth.go:307-318 | a plaintext registered beside a salt leaves an account that does not take its own password and digest |
| Tokens.VersionFollows | internal/auth/auth.go:422-422 | exactly the password writers raise the version, by one, and nothing but a login's rewrite changes a hash without it |
| Tokens.AllStamped | internal/auth/auth.go:213-253 | over every run with overtaken logins, every token carries at most the version in force, and exactly it when no password was set since its row was read |
| Tokens.AcceptedExactly | internal/auth/auth.go:130-160 | a token is accepted exactly while its account exists, is active and has had no password set since that read |
| Tokens.StaleForever | internal/auth/auth.go:130-160 | a token once stale is never accepted again |
| AccountRules.DisabledIsRefused | internal/auth/auth.go:130-145 | once an administrator has disabled an account no token of it passes and nobody logs in to it, whatever else happens, until one enables it again |
| Tokens.LateUpgradeServes | internal/auth/auth.go:230-238 | a rewrite that comes after a password change keeps the account's password exactly when it is unchanged, else it restores the old one |
| Tokens.SplitLogin | internal/auth/auth.go:213-240 | a login that nothing overtakes between row read and rewrite is the login in one step, and without a password that matched the old way on an account without a salt there is no rewrite |
| Tokens.LateUpgradeRun | internal/auth/auth.go:213-238 | a run in which a login overtaken by a reset restores the old password |
| ResetCodes.StepKeeps | internal/auth/forgot.go:82-189 | every handler keeps the code table's invariant |
| ResetCodes.CodesAlwaysOK | internal/auth/forgot.go:138-169 | over every timed run and at every moment: one open code per user, codes a cooldown apart, at most 5 attempts a code, at most 20 on the codes of the last ten minutes |
| ResetCodes.CodeLimits | internal/auth/forgot.go:87-107 | with the numbers: codes last 300 seconds, see at most 5 attempts, are 60 seconds apart with only the last one unused, and those of the last 600 seconds see at most 20 attempts |
| ResetCodes.AtMostTenCodes | internal/auth/forgot.go:87-93 | no half-open ten minutes see more than ten codes for one user |
| ResetCodes.RedeemedOnce | internal/auth/forgot.go:138-189 | a code sets at most one password |
| ResetCodes.RowOrigin | internal/auth/forgot.go:100-107 | every code in the table was put there by a request for that name and address |
| ResetCodes.IssuedExactly | internal/auth/forgot.go:70-107 | over every run a code is issued exactly for a name and address without line breaks of an account that is active then, when no code of that name is less than 60 seconds old |
| ResetCodes.RedeemedWasIssued | internal/auth/forgot.go:70-189 | every redeemed code was issued under 300 seconds before, to an account that was active then |
| ResetCodes.VerificationExactly | internal/auth/forgot.go:138-191 | a right code of the newest open row with both gates open is used up and sets the named user's password, a wrong one is charged to that row, and otherwise nothing changes |
| ResetCodes.ResetNeedsLatestCode | internal/auth/forgot.go:138-189 | a reset that changes a user uses the code last mailed to that name and address, less than 300 seconds old and not redeemed since |
| SortRows.StableSortUnique | internal/handlers/sortrows.go:27-43 | where no cell compares as NaN, a list is a stable sort of the rows if and only if it is this one |
| SortRows.SortIsStable | internal/handlers/sortrows.go:10-15 | the sort is a permutation that keeps the order of equal rows, and ordered where no cell compares as NaN |
| SortRows.StrLessIsLexicographic | internal/handlers/sortrows.go:37-43 | the text comparison is the order by the first difference |
| SortRows.SortsTheColumn | internal/handlers/sortrows.go:27-43 | the numbers of the result rise, or fall for "desc", where every cell is one; where some cell is none, the lower-cased texts do |
| SortRows.ComparisonIsOrder | internal/handlers/sortrows.go:10-15 | one mode for the whole column makes the comparison a strict weak order of the rows exactly when no cell compares as NaN, or there is only one number beside it |
| SortRows.NaNBreaksOrder | internal/handlers/sortrows.go:18-36 | the column 1, NaN, 2 compares as numbers and is not ordered |
| SortRows.IsNumericColumn | internal/handlers/sortrows.go:20-26 | numeric exactly when every cell of the column parses |
| SortRows.SortInPlace | internal/handlers/sortrows.go:16-44 | sorts the array in place into that stable sort, in the mode the whole column decides, so that the column rises, or falls for "desc" |
| DataBrowser.ReadItems | internal/db/source_rest.go:105-150 | the limit and offset slice, every visible column of the table, and a key only if the first row carries it |
| DataBrowser.ReadAllItems | internal/handlers/readall.go:23-44 | all rows in order with the key of the last chunk that has rows, or failure exactly at the cap or a failed call |
| DataBrowser.Filter | internal/handlers/projects.go:1191-1208 | exactly the rows with a matching visible cell, in order |
| DataBrowser.ProjectTables | internal/handlers/projects.go:1152-1249 | a search or sort gives the page of all the rows shown and their total, plain browsing the source's page, or failure exactly when reading fails |
| DataBrowser.PageLimitUnseen | internal/handlers/projects.go:1156-1166 | the limit on page numbers never shows in a sweep |
| DataBrowser.PagesPartition | internal/handlers/projects.go:1217-1231 | the pages up to the total, put together, are the matching rows, each as often as the table holds it, stably sorted where no cell compares as NaN |
| DataBrowser.ShownSorted | internal/handlers/projects.go:1209-1216 | the rows shown rise or fall in the column that was asked for |
| DataBrowser.ShownExactly | internal/handlers/projects.go:1191-1208 | a row is shown exactly when it is in the table and, in a search, a visible cell contains the trimmed text, both in lower case |
| DataBrowser.RowOfView | internal/handlers/projects.go:1155-1166 | row k of a page is row k of the table past the pages before it, with at most 500 rows a page and at most a million pages of plain browsing |
| DataBrowser.TotalOfView | internal/handlers/projects.go:1217-1246 | the total counts all rows to show of a search or sort, else it is the source's count or the rows of the answer; without a page the answer is everything |
| DataBrowser.KeyOfPage | internal/db/source_rest.go:140-150 | plain browsing claims the key exactly where the first row of the answer carries it, and fails exactly when the read at that row does |
| DataBrowser.KeyOfSweep | internal/handlers/readall.go:33-38 | a sweep claims it exactly where the first row of its last chunk carries it |
| DataBrowser.SweepFailsExactly | internal/handlers/readall.go:23-44 | a sweep fails exactly at a million rows or when a read at a 500th row fails |
| DataBrowser.SensitiveExactly | internal/db/redact.go:8-24 | a column is hidden exactly when its lower-cased name contains one of ten words |
| DataBrowser.NothingHiddenShown | internal/db/redact.go:28-57 | no answer shows a hidden column, and every cell shown is as the source has it |
| DataBrowser.NoPageIsUncapped | internal/handlers/projects.go:1155-1166 | an answer without a page has at most 500 rows exactly when there are at most 500 to show |
| DataBrowser.UncappedAnswer | internal/handlers/projects.go:1155-1155 | a table of 501 rows is answered with all of them |
| Gate.GateMatchesBoundary | internal/gate/gate.go:18-24 | a request falls under a base path exactly when it is it or goes on after it with a slash or a query |
| Gate.LookupPattern | internal/gate/gate.go:28-30 | under LIKE with ESCAPE (ISO/IEC 9075-2 section 8.5) the pattern matches exactly the texts that start with a slash and the segment |
| Gate.Wildcards | internal/gate/gate.go:28-30 | the reader of patterns is LIKE: percent, underscore and backslash as ISO/IEC 9075-2 section 8.5 has them |
| Gate.BlockedIsFound | internal/gate/gate.go:91-98 | the base path of a blocked request is among the answers of the page's query, except a one-segment one requested with a query |
| Gate.PageOfBlocked | internal/gate/gate.go:91-98 | the page renders the blocked project, whichever answer LIMIT 1 takes, exactly when it is among the answers and no other project's base path starts with the same segment |
| Gate.SiblingRendered | internal/gate/gate.go:97-98 | with /a and /ab, or with /a twice, both projects are answers for /a/x |
| Gate.QueryIsMissed | internal/gate/gate.go:91-98 | the page for /a?x does not find /a |
| SqliteText.LiteralReadsBack | internal/db/db.go:456-461 | a quoted value reads back as itself (ISO/IEC 9075-2 section 5.3) exactly when no quote follows it |
| SqliteText.NameReadsBack | internal/db/source_sqlite.go:155-157 | a column name reads back exactly when it holds no double quote |
| SqliteText.KeyReads | internal/db/db.go:444-461 | a key reads back as its digits if it is numeric, else as its text |
| SqliteText.UpdateItem | internal/db/source_sqlite.go:141-157 | the loop builds the statement of all cells but the key, or refuses the table name |
| SqliteText.SafeTableNameExactly | internal/db/db.go:435-442 | a table name is written exactly when it is an ASCII identifier that does not start with a digit |
| SqliteText.UpdateSaysWhatWasAsked | internal/db/source_sqlite.go:141-157 | the whole statement reads back as exactly the asked cells, table and key, whatever the values, if and only if there is a cell to set and no column name holds a double quote |

## Left out

- HTTP, JSON, CORS, mail, Telegram, SSH, nginx pushes and the exported files: the handlers start from parsed fields, and tables are maps with reliable reads and writes.
- Roles and project access of users: a caller's role, the target's role and whether they share a project reach ResetPassword as parameters, and roles are not stored.
- Unicode tables: the Han script of a name's characters and the lower case of a character are parameters.
- Cryptography: digests, keyed digests and bcrypt are injective, and no text spells out a digest by accident; characters of a password are bytes.
- Races inside account handlers: each handler is one atomic step, except that a login is split into its row read, its rewrite and its token. Token expiry is left out; it only refuses more.
- systemd units, remote projects' deployment, log files and stop commands; the memory gate refuses at will.
- The health monitor's bookkeeping: its restarts appear as startShared calls for referenced services that may come at any later time.
- ProxyRegistry.TCPProxy.Start: which texts are loopback addresses and which ports can be listened on are parameters; allowed sources and idle stops are left out.
- Daylight-saving changes: one zone with an offset of whole minutes; times are nanoseconds as mathematical integers, also in the stepping of a cron field.
- ResetCodes.CodesAlwaysOK: needs clocks that do not run backwards, as does RateLimiter.AnswersByHistory; the limiter takes one maximum and one window (the server uses RateLimit(5, time.Minute)).
- Lifecycle.StatusAndRefsAgree: takes each lifecycle event with its attach or detach run to completion before the next one; SharedServices covers the overlapping case for the manager alone.
- Uniqueness of ports while projects are being created: the project has no row yet when its port is chosen.
- Sources of the data browser other than REST, sources that change during a sweep, thumbnails, statistics and CSV.
- SortRows.SortInPlace: an insertion sort stands for the library's stable sort, which StableSortUnique makes the same unless a cell compares as NaN, where the library's order is its own.
- SqliteText.KeyReads: what SQLite's column affinity makes of an unquoted number is not modelled.
- Agents, backups, deployment, statistics, log redaction and the bot commands: they would add only easy members.
