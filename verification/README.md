# Proofs about uptime-bench

A model of the parts of uptime-bench that carry the weight of its results, and proofs of what they
promise. Each component is one module in a file of its own name.

- **Real-URL admission** (`HostBatches`, `HostOrder`, `Admission`, `AdmissionSafety`,
  `AdmissionReach`, `AdmissionProgress`). The feeder and the workers are a state machine with one step
  per channel operation, mutex operation or report, and cancellation at any time. Safety, limits that
  can be reached, deadlock freedom, termination, and exactly when a cancellation crashes the process.
- **Result accounting** (`ResultTally`, `RealRun`). One result per check, and counters that add up
  over whole runs of the admission protocol.
- **Dump lines** (`InsertValues`). The `VALUES` scanner inverts a printer.
- **Campaign schedules** (`Campaign`, `Shuffle`, `UniformSchedule`, `CooldownCheck`,
  `CooldownLayout`, `CooldownSchedule`, `CooldownExactness`, `CooldownFamilies`, `Schedule`,
  `ScheduleFamilies`, `Escalation`). A draw is an arbitrary number in its range, so every statement holds for every seed.
  Times are whole nanoseconds.
- **Authoritative DNS** (`DnsTypes`, `DnsWire`, `DnsNames`, `DnsServer`, `DnsBuild`, `DnsMeaning`,
  `DnsExact`, `DnsAnswers`, `DnsOutcomes`, `DnsCrashes`, `GeneratedHosts`). `DnsWire` decodes messages by
  section 4.1 of RFC 1035 and knows nothing of the server; `DnsServer` says what is decided and which
  bytes say it; `DnsBuild` has the byte-appending code; `DnsMeaning` and `DnsExact` prove that the bytes
  decode to the decision exactly when it fits on the wire; `DnsAnswers` has whole queries, `DnsOutcomes`
  what a client reads for each outcome, and `DnsCrashes` the queries that crash the server.
- **SQL** (`SqlSplit`, `SqlQuote`, `SqlRender`). The statement splitter and the quoting and rendering
  that feed it.
- **Failure registry** (`FailureRegistry`). A lazily pruned map that refines an event log.
- **Smaller ones**: `TrafficMix`, `CertLibrary`, `Tsv`. `Seqs`, `Arith` and `Text` are shared.

Loops and in-place updates are methods proved against a specification function or predicate;
the lemmas are about those, and say what they mean in the fields of the inputs and results.
`dafny verify dfyconfig.toml` checks the whole project.

## Where the code does not do what it seems to promise

The model follows the code, and the named members say exactly when it falls short.

- When the token loop is cancelled, `Acquire` returns a nil function and an error; the caller has
  already stored the nil function over its no-op and calls it. The goroutine panics and the process
  ends (`AdmissionProgress.CrashReachable`, `AdmissionProgress.StartIsExposed`). The only call chain
  (cmd/uptime-bench-veriflier-url-once/main.go, lines 548, 623 and 776) passes a background context,
  which is never cancelled, so the crash waits for a caller with a context that can be cancelled; what
  holds of the program as it is called today is `AdmissionProgress.UncancelledRun`.
- Results of a 503 carry a transport error, and those are counted before overloads are looked at, so
  the overload counter is always 0, which is right exactly when nothing was overloaded
  (`RealRun.OverloadsNeverCounted`).
- The dump scanner keeps the letter of a named escape, so `\n` in a dump becomes `n`
  (`InsertValues.DumpReadsBack`).
- For some overlapping target sets `generateSchedule` can refuse a campaign that has a schedule, as an
  internal error: when its grid happens to fail and the layout gives two replays of a target the same
  step (`ScheduleFamilies.ExampleRefused`). `ScheduleFamilies.RightIffDominated` says for which sets: all
  but those that dominate each other. `Schedule.GenerateSchedule` says when, for one campaign and seed.
- `quoteSQLString` does not escape backslashes, so a table name can spoil the whole query
  (`SqlQuote.LiteralClosesIff`, `SqlRender.TableListIsOneStatement`, `SqlRender.RowCountIsOneStatement`,
  `SqlRender.TrailingBackslashSwallows`). Where such a query splits into more than one statement, the rows
  of all but the first are dropped (`SqlRender.RowsDroppedIff`, `SqlRender.ListSplitsInTwo`).
- A failure key is shared with another failure when the type, the host or the path holds a colon, and
  only then (`FailureRegistry.KeySharedIff`).
- The smallest duration is its own negative, so `SelectExpired` prefers a certificate that lies
  2^63 nanoseconds or more before its target (`CertLibrary.ExpiredIsClosestIff`).
- The lookup of a generated range slices out of bounds when prefix and suffix overlap in the host, so
  that an address query for such a host crashes the server (`GeneratedHosts.PanicsExactly`,
  `DnsCrashes.CrashesIff`, `DnsCrashes.WebCrashes`).
- A generated range whose end does not fit in 64 bits accepts nothing (`GeneratedHosts.HostsRoundTrip`).
- Lengths are not checked, so label lengths, data lengths and counts are cut to 8 or 16 bits, and a
  response with such a cut is not read back as meant (`DnsExact.EmitDecodesIff`).
- A comment calls the miss path "NOERROR-or-NXDOMAIN"; it always sends RCODE 3, also for a name that
  exists with another type (`DnsAnswers.KnownNameMissed`).

## Model

| member | source | states |
|---|---|---|
| HostBatches.MakeHostAwareBatches | cmd/uptime-bench-veriflier-url-once/main.go:1098-1123 | In the fields of the checks: the batches concatenate to the checks in order; each is non-empty and within the cap (a non-positive size counts as 1); two checks of a batch name different hosts or, without a host, have different URL hashes (and no host is the name a hash is filed under); a batch is closed only when it is full or the next check clashes in that sense; and no other order-preserving cut into such batches is shorter. |
| HostBatches.NoClashFields | cmd/uptime-bench-veriflier-url-once/main.go:1098-1123 | So two checks of a batch never name one host, and two without a host never have one URL hash. |
| HostBatches.GreedyStaysAhead | cmd/uptime-bench-veriflier-url-once/main.go:1114-1121 | After k batches no legal cut has covered more checks than the greedy one: the exchange argument behind minimality. |
| HostBatches.GreedyIsFewest | cmd/uptime-bench-veriflier-url-once/main.go:1098-1123 | Any cut in which no batch could also have taken the next check is one with the fewest batches. |
| HostOrder.UniqueBatchHosts | cmd/uptime-bench-veriflier-url-once/main.go:1205-1216 | The hosts of a batch, each once, strictly increasing. |
| HostOrder.HostsOfBatch | cmd/uptime-bench-veriflier-url-once/main.go:1205-1223 | In the fields of the checks: exactly the hosts named in the batch, and urlhash: with the hash for each check without a host. |
| RealRun.Plan | cmd/uptime-bench-veriflier-url-once/main.go:896-933 | Limits of 0 or less become 1; batches are cut no larger than the token semaphore; the start state satisfies the invariant of the protocol. |
| AdmissionSafety.StartInv | cmd/uptime-bench-veriflier-url-once/main.go:933-961 | With legal batches the start state satisfies the invariant, and has as many workers as the global limit or the number of batches, whichever is less, and at least one. |
| AdmissionSafety.StepKeepsInv | cmd/uptime-bench-veriflier-url-once/main.go:1125-1203 | Each atomic step of the feeder or a worker (host slot, mutex, token, rollback, release, report) keeps the invariant: every semaphore and the mutex show exactly what the workers hold, within capacity, and every worker is at a legal point of its batch. |
| AdmissionSafety.RunKeepsInv | cmd/uptime-bench-veriflier-url-once/main.go:942-977 | The invariant holds in every state of every interleaving, with a cancellation at any moment or none. |
| AdmissionSafety.ClampNeverFires | cmd/uptime-bench-veriflier-url-once/main.go:1163-1165 | Because batches are cut at min(batchSize, globalConcurrency), a batch asks for exactly one token per check. |
| AdmissionSafety.RunningWithinLimits | cmd/uptime-bench-veriflier-url-once/main.go:942-961 | In every reachable state at most globalConcurrency checks are being executed, at most perHostConcurrency of them name any one host, and at most perHostConcurrency of those without a host have any one URL hash. |
| AdmissionReach.CanRunTogether | cmd/uptime-bench-veriflier-url-once/main.go:942-961 | The limits are reached: batches that hold together no more than globalConcurrency checks, and of which no more than perHostConcurrency use any one host, can all be executed at the same time. |
| AdmissionSafety.OneInTokenLoop | cmd/uptime-bench-veriflier-url-once/main.go:1166-1180 | At most one worker is in the token loop or its rollback. |
| AdmissionSafety.RunKeepsCopies | cmd/uptime-bench-veriflier-url-once/main.go:944-977 | However the goroutines interleave, a batch is queued, in hand, reported or given up as often as it was at the start: none is lost or doubled. |
| AdmissionSafety.ExitedAccounts | cmd/uptime-bench-veriflier-url-once/main.go:962-977 | Once all workers have exited, the reported and the given-up batches are together the batches of the run. |
| AdmissionProgress.StepIsNearer | cmd/uptime-bench-veriflier-url-once/main.go:1125-1203 | Every step lowers a natural-number bound on the steps still to come. |
| AdmissionProgress.RunsAreShort | cmd/uptime-bench-veriflier-url-once/main.go:942-977 | So every run, cancelled or not, is finite: no run is longer than the bound of its first state. |
| AdmissionProgress.SomeStep | cmd/uptime-bench-veriflier-url-once/main.go:1125-1150 | Deadlock freedom: while a worker is unfinished and nothing has crashed, some step that needs no cancellation is enabled. Sorted host order, then the mutex, then tokens. |
| AdmissionProgress.EndedRun | cmd/uptime-bench-veriflier-url-once/main.go:1125-1149 | A run that can go no further has crashed, or all workers have exited, the mutex is free, every semaphore is empty and each batch was reported once or given up. |
| AdmissionProgress.UncancelledRun | cmd/uptime-bench-veriflier-url-once/main.go:942-977 | Without a cancellation, which is how the program calls it today, no run crashes, and a maximal run executes and reports every batch, leaving everything released. |
| AdmissionProgress.CrashReachable | cmd/uptime-bench-veriflier-url-once/main.go:1144-1149 | From a live state some interleaving and cancellation crash the process if and only if a batch still waits for its admission: the failed Acquire returns a nil release function, which the caller stores and calls. |
| AdmissionProgress.StartIsExposed | cmd/uptime-bench-veriflier-url-once/main.go:1144-1149 | Hence any run with at least one batch, under a context that can be cancelled, has an interleaving that crashes it. The only call chain passes a context that is never cancelled, so this is no run of the program as it is. |
| ResultTally.GetIDs | cmd/uptime-bench-veriflier-url-once/main.go:1707-1717 | Each wanted ID that has a stored callback yields that row exactly once, no other ID does, in any map order. |
| ResultTally.ConvertV1Rows | cmd/uptime-bench-veriflier-url-once/main.go:1284-1309 | Every row becomes its result in order, a success when the status is 1, followed by a missing result for each check without a row, in check order. |
| ResultTally.ExecuteBatch | cmd/uptime-bench-veriflier-url-once/main.go:1013-1046 | Every check of a batch with distinct synthetic IDs gets exactly one result whatever the endpoint does; an overload always carries a transport error too. For v1 and v2 a check is missing if and only if nothing came back for its ID, and otherwise a success as the last row or result with its ID says; every other outcome fails all checks of the batch under the name of that outcome. |
| ResultTally.KindNamesDiffer | cmd/uptime-bench-veriflier-url-once/main.go:1458-1472 | The classes of transport errors have five different names. |
| ResultTally.ReportBatch | cmd/uptime-bench-veriflier-url-once/main.go:950-957 | What a worker reports is, for an executed batch, what executing it promises, and, for a cancelled admission, one transport failure per check. |
| ResultTally.ModeResult.Accumulate | cmd/uptime-bench-veriflier-url-once/main.go:1048-1077 | The loop adds to each counter exactly the number of results that CountersAreExact says. |
| ResultTally.CountersAreExact | cmd/uptime-bench-veriflier-url-once/main.go:1048-1077 | In the fields of the results: transport errors are those with one; of the others, the missing, the completed, the completed successes (expected), the completed rest (unexpected) and the overloads each go to their counter; and each error kind counts the results filed under it, and is listed only if there is one. |
| ResultTally.EveryResultCounted | cmd/uptime-bench-veriflier-url-once/main.go:1048-1077 | Each result is counted once as completed, missing or transport error, each completed one once as expected or unexpected. |
| ResultTally.TallyOrderFree | cmd/uptime-bench-veriflier-url-once/main.go:981-985 | The counters, error kinds included, depend on the results only as a multiset: the order in which batches finish does not matter. |
| ResultTally.OverloadsCounted | cmd/uptime-bench-veriflier-url-once/main.go:1049-1057 | If overloads carry a transport error, the overload counter does not move. |
| ResultTally.OverloadCountRightIff | cmd/uptime-bench-veriflier-url-once/main.go:1049-1057 | So the counter equals the number of overloaded results if and only if nothing was overloaded. |
| RealRun.BatchIsDistinct | cmd/uptime-bench-veriflier-url-once/main.go:933-933 | A batch cut from checks with distinct IDs has distinct IDs. |
| RealRun.ResultsCoverChecks | cmd/uptime-bench-veriflier-url-once/main.go:962-985 | If the synthetic IDs are distinct and each outcome has results as a worker reports them, then in a run that ended without a crash the IDs of all results and of the checks never handed out are, with multiplicity, the IDs of the checks. |
| RealRun.CountsAreConserved | cmd/uptime-bench-veriflier-url-once/main.go:979-1011 | Under the same conditions Completed + Missing + TransportErrors + never handed out = URLCount and Completed = ExpectedMatches + Unexpected, each counter being the number of results whose fields say so; without a cancellation nothing is missing from the sum. |
| RealRun.Collect | cmd/uptime-bench-veriflier-url-once/main.go:962-985 | The loop over the outcomes leaves the counters of a whole run as CountersAreExact says of all its results. |
| RealRun.OverloadsNeverCounted | cmd/uptime-bench-veriflier-url-once/main.go:1450-1456 | At every moment of every run the OverloadResponses counted from the reported results is 0, which is the number of overloaded results if and only if there are none. |
| InsertValues.ParseInsertValuesLine | cmd/uptime-bench-veriflier-url-once/main.go:2121-2209 | The byte loop with its flags delivers what the recursive meaning of the line says: rows in order, a stop at the first refusal, an error when a row or quote stays open. |
| InsertValues.ReadsWhatWasPrinted | cmd/uptime-bench-veriflier-url-once/main.go:2121-2209 | The scanner inverts a printer: any non-empty rows of quoted fields (any characters; raw, behind a backslash, or a doubled quote) and plain tokens, trimmed of the white space around them, come back field for field and in order. |
| Text.TrimDropsSpace | cmd/uptime-bench-veriflier-url-once/main.go:2135-2138 | Trimming drops ASCII white space on both sides of visible text, and nothing else. |
| InsertValues.BrokenLine | cmd/uptime-bench-veriflier-url-once/main.go:2121-2209 | A line that breaks off inside a row or inside a quote is an error, after all rows before it have been delivered, unless the callback refused one of these. |
| InsertValues.SeenAll | cmd/uptime-bench-veriflier-url-once/main.go:2143-2151 | If the callback accepts every row, all rows are delivered and there is no error. |
| InsertValues.SeenUpTo | cmd/uptime-bench-veriflier-url-once/main.go:2143-2151 | If it refuses a row, exactly the rows up to and including that one are delivered. |
| InsertValues.DumpReadsBack | cmd/uptime-bench-veriflier-url-once/main.go:2121-2209 | Any rows of strings, escaped as mysqldump does and written after VALUES, are scanned into exactly these rows if and only if no string in them holds NUL, line feed, carriage return or Ctrl-Z: their escapes lose only the backslash (lines 2155-2160). |
| InsertValues.DoubledReadsBack | cmd/uptime-bench-veriflier-url-once/main.go:2154-2170 | A string without backslashes in quotes, its own quotes doubled, is read back as it was. |
| Campaign.BuildPairs | internal/campaign/generator.go:453-460 | The nested loops list the replays design by design, and replay by replay within a design. |
| Campaign.AllPairsExact | internal/campaign/generator.go:453-460 | Each requested (design, replay) is listed exactly once and nothing else. |
| Shuffle.ShuffleInPlace | internal/campaign/generator.go:461-465 | The in-place swaps compute the shuffle that the draws determine; the first draw settles the last position. |
| Shuffle.ShufflePermutes | internal/campaign/generator.go:461-465 | Shuffling permutes. |
| Shuffle.ShuffleBijection | internal/campaign/generator.go:461-465 | For distinct elements, the arrangements reached are exactly the permutations, each by exactly one sequence of draws. |
| Campaign.SortOfIncreasing | internal/campaign/generator.go:497-499 | A strictly increasing sequence has no other sort than itself, stable or not. |
| UniformSchedule.GenerateUniformSchedule | internal/campaign/generator.go:474-501 | The grid is a sort of one slot for each pair, at i slot widths plus the width times (u/2 - 1/4) for its draw u, truncated toward zero, but not before 0; it holds each pair once and lies in [0, duration); with a positive slot width it is in order before any sorting. |
| UniformSchedule.OffsetOnGrid | internal/campaign/generator.go:482-489 | An offset stays within a quarter slot of its grid point and below the end: no jitter reaches the upper clamp. |
| UniformSchedule.GridGaps | internal/campaign/generator.go:478-495 | For any draws, neighbouring offsets differ by at least half a slot before any sorting, and the grid strictly increases. |
| CooldownCheck.ScheduleRespectsTargetCooldown | internal/campaign/generator.go:562-579 | The loop over slots and targets decides the recursive check. |
| CooldownCheck.RespectsMeansSpaced | internal/campaign/generator.go:562-579 | On a sorted schedule of different slots, comparing only with the previous use of each target decides that all pairs of slots on a common target are at least cooldown apart. |
| CooldownSchedule.GenerateCooldownSchedule | internal/campaign/generator.go:503-560 | Infeasible is returned exactly when some target alone needs too much room, and names such a target; a schedule is returned exactly when the layout also passes the final check. Its slots are then, sorted: with p the largest number of earlier uses of a target of the replay and P the largest p of all, the largest integer x with x * P <= p * (duration - 1) if P > 0 and P cooldowns end before the last nanosecond, and else p cooldowns. |
| CooldownLayout.LayoutIsLaidOut | internal/campaign/generator.go:518-551 | The layout as computed is laid out so, for all designs and pairs. |
| CooldownLayout.EndsOnTime | internal/campaign/generator.go:543-551 | If it was stretched, the last slot lies on the last nanosecond of the campaign. |
| CooldownLayout.UsesIsCount | internal/campaign/generator.go:503-509 | The uses of a target are the replays whose targets hold it. |
| Campaign.StableSortIsStable | internal/campaign/generator.go:553-555 | Slots with equal offsets keep their order. |
| CooldownSchedule.Place | internal/campaign/generator.go:518-541 | Each replay goes to the largest use count so far among its targets times the cooldown, and latest is the largest such offset. |
| CooldownSchedule.StretchInPlace | internal/campaign/generator.go:543-551 | Every offset, and nothing else, is rescaled in place as LayoutIsLaidOut says. |
| CooldownExactness.SucceedsExactly | internal/campaign/generator.go:503-560 | For all target sets: the layout is accepted if and only if no target has too many replays and no two replays with a common target got the same position. |
| CooldownExactness.SucceedsSoundly | internal/campaign/generator.go:543-559 | What the layout returns is sorted, in range, holds each replay once and keeps all pairs on a common target apart: stretching with truncation loses no part of a gap. |
| CooldownExactness.TooManyIsInfeasible | internal/campaign/generator.go:510-516 | The early refusal is right for all target sets: by pigeonhole no assignment of offsets fits. |
| CooldownExactness.SuccessIsFeasible | internal/campaign/generator.go:518-559 | What the layout accepts is feasible. |
| CooldownExactness.SucceedsIffFeasible | internal/campaign/generator.go:503-560 | If the target sets dominate each other - of two sets with a common target, each target of one has in the other a target that is used wherever it is - the layout succeeds if and only if some assignment of offsets in the campaign keeps replays of each target apart. |
| CooldownExactness.EqualOrDisjointDominated | internal/campaign/generator.go:518-541 | Sets that are equal or disjoint dominate each other. |
| CooldownExactness.NestedDominated | internal/campaign/generator.go:518-541 | So do sets in which, of any two targets used together, one is used wherever the other is. |
| CooldownFamilies.AlwaysRightIffDominated | internal/campaign/generator.go:503-560 | For any family of target sets, of the layout by itself, apart from the grid that is tried before it: it accepts exactly the feasible campaigns over the family, for all numbers of replays, orders, durations and cooldowns, if and only if the sets dominate each other. |
| CooldownExactness.OverlapRefused | internal/campaign/generator.go:518-558 | With overlapping sets it can refuse a feasible campaign: B, B, B, {A,B}, A, A, A with room for four. |
| Schedule.GenerateSchedule | internal/campaign/generator.go:442-472 | What is returned holds each (design, replay) once, sorted and in range, and with a cooldown keeps all pairs on a common target apart. For every seed it succeeds if and only if there is no cooldown, or the grid of this seed keeps it, or no target is overfull and no two replays of a target get the same step of the layout. If the target sets of the replayed designs dominate each other, that is if and only if some such schedule exists. What it returns is the sorted grid if that keeps the cooldown, and otherwise the stretched layout, both offset by offset. |
| ScheduleFamilies.AcceptsSoundly | internal/campaign/generator.go:447-472 | Whatever the target sets, a campaign that is scheduled for some seed has a schedule that keeps the cooldown. |
| ScheduleFamilies.RightIffDominated | internal/campaign/generator.go:447-472 | For any family of target sets, of generateSchedule as a whole: it schedules exactly the campaigns over the family that have a schedule, for all designs, durations, cooldowns and seeds, if and only if the sets dominate each other. For any other family a campaign and a seed are built for which the grid fails, the layout refuses and a schedule exists. |
| ScheduleFamilies.ExampleRefused | internal/campaign/generator.go:447-472 | A concrete one: three replays on B, one on A and B, three on A, 28 nanoseconds, a cooldown of 4, and draws that put all but the last replay on its grid point. It has a schedule and is refused. |
| Escalation.PickEscalation | internal/campaign/generator.go:355-404 | The first stage starts at 0 with the base failure, each later one after its drawn delay, between the smallest and the largest, with the drawn failure type; stages are left out only because they would start at or after the end of the scenario. |
| Escalation.OffsetsIncrease | internal/campaign/generator.go:366-379 | For every validated range and draw, stages start at 0 and then strictly later and later, all before the scenario ends. |
| Escalation.WindowsInside | internal/campaign/generator.go:406-429 | Every stage has positive length and ends inside the scenario. |
| Escalation.ReplacementTiles | internal/campaign/generator.go:409-413 | At each moment of the scenario exactly one replacement stage is active. |
| Escalation.RecoveryDisjoint | internal/campaign/generator.go:414-418 | Recovery stages do not overlap, and leave a quiet gap wherever there is room for one. |
| Escalation.RecoveryHalves | internal/campaign/generator.go:414-429 | A recovery stage lasts half of the time to the next stage, the last one half of the time to the end, rounded down, but a single nanosecond as a whole. |
| Escalation.LayeredEndTogether | internal/campaign/generator.go:419-421 | Layered stages all last until the scenario ends. |
| SqlSplit.SplitSQLStatements | internal/jetmoncapacity/executor.go:127-230 | The index loop with its five flags yields the recursive six-mode split. |
| SqlSplit.SplitHomomorphism | internal/jetmoncapacity/executor.go:127-230 | If the scanner is in normal mode on reaching the terminator written after a, then Split(a;b) = Split(a) ++ Split(b). |
| SqlSplit.CarriedIsOneStatement | internal/jetmoncapacity/executor.go:216-221 | Text that the scanner passes from normal to normal mode without a terminator is one statement. |
| SqlSplit.ShieldedCarries | internal/jetmoncapacity/executor.go:143-215 | No semicolon counts in a line comment, a block comment or double quotes, whatever else stands in them: the scanner takes all of it into the statement and is back in normal mode behind it. |
| SqlSplit.ShieldedIsOneStatement | internal/jetmoncapacity/executor.go:127-230 | So such a part with plain text around it is one statement. |
| SqlSplit.PlainEnds | internal/jetmoncapacity/executor.go:216-224 | In plain text a semicolon ends the statement. |
| SqlSplit.DashesAreText | internal/jetmoncapacity/executor.go:196-201 | Two dashes without white space behind them are no comment. |
| SqlQuote.LiteralClosesIff | internal/jetmoncapacity/db_operational.go:320-322 | For every value: its quoted form is read as one literal that closes at its final quote if and only if each backslash is followed by a character other than a quote. |
| SqlRender.RenderStatusSQL | internal/jetmoncapacity/db_operational.go:286-292 | The loop builds the status query. |
| SqlRender.RenderTableListSQL | internal/jetmoncapacity/db_operational.go:294-303 | The loop builds the table list query, or the empty one for no tables. |
| SqlRender.RenderRowCountSQL | internal/jetmoncapacity/db_operational.go:305-311 | The loop builds the union of row counts. |
| SqlRender.RenderedTexts | internal/jetmoncapacity/db_operational.go:294-311 | The texts of the queries for no table and for two. |
| SqlRender.StatusIsOneStatement | internal/jetmoncapacity/db_operational.go:286-292 | The status query splits into exactly itself without the terminator. |
| SqlRender.TableListIsOneStatement | internal/jetmoncapacity/db_operational.go:294-303 | The table list query splits into exactly itself without the terminator if and only if in each name every backslash is followed by a character other than a quote. |
| SqlRender.RowCountIsOneStatement | internal/jetmoncapacity/db_operational.go:305-311 | So does the row count query for at least one table; for none it splits into no statement. |
| SqlRender.FirstRowsAreAllRows | internal/jetmoncapacity/db_operational.go:313-318 | Taking the rows of the first statement drops no row of the status query, whatever the server answers, and none of the other two queries if in each table name every backslash is followed by a character other than a quote. |
| SqlRender.RowsDroppedIff | internal/jetmoncapacity/db_operational.go:313-318 | For any SQL text, rows are dropped for some answers of the server if and only if the text splits into more than one statement. |
| SqlRender.ListSplitsInTwo | internal/jetmoncapacity/db_operational.go:294-318 | The list query for a name of a letter, a backslash, a quote, a semicolon and a letter splits into two statements, and the rows of the second can be dropped. |
| SqlQuote.UnpairedLiteral | internal/jetmoncapacity/db_operational.go:320-322 | After a literal with an unpaired backslash the scanner is not back in normal mode, however the text goes on, if no later part can bring it back. |
| SqlRender.TrailingBackslashSwallows | internal/jetmoncapacity/db_operational.go:294-303 | The list query for a name that ends in a backslash swallows its own terminator: the statement is the query with the terminator in it. |
| FailureRegistry.Registry.Set | internal/control/registry.go:40-64 | Logs a Set on the type, host and path of the failure, with its expiry at now plus its duration, its throttle and its parsed blocks; the map still agrees with the log. |
| FailureRegistry.SetLives | internal/control/registry.go:40-64 | From then on the failure lives up to and including now plus its duration, rejects exactly the draws from its rate on if that lies between 0 and 1 and none otherwise, and covers exactly the addresses in the blocks that parse. |
| FailureRegistry.Registry.Remove | internal/control/registry.go:67-71 | Logs a Remove of the key; the map still agrees with the log. |
| FailureRegistry.Registry.Active | internal/control/registry.go:74-87 | Returns each live failure of the log once and changes no answer by pruning. |
| FailureRegistry.Registry.Lookup | internal/control/registry.go:94-122 | If the failure live on the type, host and path has no source blocks, it decides; else the one on the type and host; else the one on the type; else nothing does. The one that decides is the answer unless its rate rejects the draw. Pruning changes no answer. |
| FailureRegistry.Registry.LookupForIP | internal/control/registry.go:130-153 | Decides by one live failure whose blocks cover the address, if there is any; answers nothing otherwise. |
| FailureRegistry.LiveIsLatestSet | internal/control/registry.go:74-87 | A failure is live if and only if the latest event on its key is a Set of it that has not expired. |
| FailureRegistry.OnlyEventsRevive | internal/control/registry.go:109-112 | As time goes on without events on a key, a live failure stays itself until it expires, and never comes back: so pruning is invisible. |
| FailureRegistry.LookupTakesFirstEligible | internal/control/registry.go:105-121 | For any list of keys, as the loop goes through them: the first live failure without source blocks decides; a geo failure is never returned. |
| FailureRegistry.FailureKeyInjective | internal/control/registry.go:155-157 | Keys tell failures apart whenever type and host hold no colon. |
| FailureRegistry.KeySharedIff | internal/control/registry.go:155-157 | A failure shares its key with a different one if and only if its type, its host or its path holds a colon. |
| FailureRegistry.PortsCollide | internal/control/registry.go:155-157 | A failure for a host with a port has the key of one for the bare host whose path starts with the port. |
| TrafficMix.PickTrafficMixEntry | cmd/uptime-bench-veriflier-bench/main.go:967-979 | The entry whose weight range holds idx modulo the total weight; the fallback at the end is never needed. |
| TrafficMix.OwnerUnique | cmd/uptime-bench-veriflier-bench/main.go:967-979 | Only one entry owns a residue. |
| TrafficMix.ChosenExactly | cmd/uptime-bench-veriflier-bench/main.go:967-979 | In the first n = qW + r checks entry k is chosen exactly q times its weight plus its clamped share of r. |
| TrafficMix.FullRoundIsFair | cmd/uptime-bench-veriflier-bench/main.go:967-979 | Any W consecutive checks hit each entry exactly its weight. |
| TrafficMix.BuildBatches | cmd/uptime-bench-veriflier-bench/main.go:929-965 | The batches cut the checks with consecutive IDs in order, all full but perhaps the last, and check i carries the fields of the entry that owns i. |
| TrafficMix.MakeBatches | cmd/uptime-bench-veriflier-bench/main.go:955-964 | Reslicing partitions the checks in order. |
| CertLibrary.CoversMeans | internal/certlibrary/certlibrary.go:216-233 | An identifier covers a host if and only if it equals it or is a wildcard whose star stands for exactly one non-empty left label (section 6.4.3 of RFC 6125). |
| CertLibrary.CoversHost | internal/certlibrary/certlibrary.go:203-214 | An entry covers a host if and only if one of its identifiers, normalized, covers the host, normalized and not empty. |
| CertLibrary.SelectDefault | internal/certlibrary/certlibrary.go:151-177 | In the fields of the entries: a covering entry that has begun and not expired, than which no other such entry expires later, or as late with a smaller ID; none exactly if there is no such entry or no host. |
| CertLibrary.DefaultOrderFree | internal/certlibrary/certlibrary.go:151-177 | The same entry for every order of the manifest. |
| CertLibrary.SelectClosest | internal/certlibrary/certlibrary.go:179-200 | A covering candidate than which none has a smaller computed distance, or the same with an earlier expiry; none exactly if there is no candidate or no host. |
| CertLibrary.CodeDistanceMeans | internal/certlibrary/certlibrary.go:247-252 | The computed distance is the true one as far as it fits in a duration, the largest duration beyond that on one side, and the smallest on the other. |
| CertLibrary.SelectExpiring | internal/certlibrary/certlibrary.go:126-134 | Nothing for a non-positive target; else the closest among the unexpired. |
| CertLibrary.SelectExpired | internal/certlibrary/certlibrary.go:138-146 | Nothing for a non-positive target; else the closest, as computed, among the expired. |
| CertLibrary.ClosestOrderFree | internal/certlibrary/certlibrary.go:179-200 | Any order of the entries leads to the same expiry, or to no entry. |
| CertLibrary.ExpiringIsClosest | internal/certlibrary/certlibrary.go:126-134 | For all inputs, no unexpired covering certificate expires closer to the wanted moment, saturating subtraction notwithstanding. |
| CertLibrary.ExpiredIsClosestIff | internal/certlibrary/certlibrary.go:138-146 | The choice is truly closest if and only if no candidate lies so far back that the difference is the smallest duration, or all candidates expired at the same moment. |
| CertLibrary.FarPastWins | internal/certlibrary/certlibrary.go:247-252 | A certificate from 293 years back beats one that expired on the spot. |
| GeneratedHosts.ParseGeneratedHostPattern | internal/dnsserver/generated.go:60-94 | The pattern is accepted exactly when it has one %d or %0Nd with N > 0, and split around it. |
| GeneratedHosts.ParsePlaceholder | internal/dnsserver/generated.go:70-93 | The digit loop reads the placeholder as the recursive definition does. |
| GeneratedHosts.ParsesExactly | internal/dnsserver/generated.go:60-94 | A pattern parses to prefix, suffix and width if and only if, lower-cased and without a final dot, it is the prefix, one placeholder (%d for width 0, else %0 with digits worth the width and d) and the suffix, with no other percent sign. |
| GeneratedHosts.RangeFinds | internal/dnsserver/generated.go:97-126 | Every number from the start on, formatted by the pattern with a final dot, is found if it is at most the end, and missed otherwise. |
| GeneratedHosts.RangeFindsBare | internal/dnsserver/generated.go:97-126 | Without the dot it is found exactly up to the end, unless the suffix itself ends in a dot. |
| GeneratedHosts.HostsRoundTrip | internal/dnsserver/generated.go:27-58 | For a range made from a pattern: every number n in start..start+count-1, formatted by the pattern, is found with the IP and TTL of the range if and only if start+count-1 does not wrap around (and, without the final dot, the suffix does not end in one). |
| GeneratedHosts.RangeMadeIff | internal/dnsserver/generated.go:27-58 | A range is made if and only if there are an ID, a start of at least 0, a count of at least 1, an address and a pattern that parses. |
| GeneratedHosts.PlainRangeExact | internal/dnsserver/generated.go:103-125 | Without a width, a host is accepted if and only if it is the canonical decimal formatting of a number in range. |
| GeneratedHosts.PaddedRangeExact | internal/dnsserver/generated.go:103-125 | With a width, a host is accepted if and only if its middle has at least that many digits and a value in range. |
| GeneratedHosts.PanicsExactly | internal/dnsserver/generated.go:97-102 | Lookup panics on a host if and only if the host, lower-cased and without a final dot, is the prefix followed by what is left of the suffix when a non-empty end of the prefix is also its start. |
| GeneratedHosts.PanicsIffOverlap | internal/dnsserver/generated.go:97-102 | So it panics on some host if and only if an end of the prefix is also a start of the suffix. |
| DnsServer.ApexOrderFree | internal/dnsserver/zones.go:49-60 | For zones of which none is nested in another, the apex found does not depend on the order in which the map is visited. |
| DnsNames.ParseQueryName | internal/dnsserver/dnsserver.go:472-498 | The loop returns the lower-cased dotted name, type and end of the question that the recursive parse finds, or nothing when it is malformed. |
| Text.LowerIgnoresCase | internal/dnsserver/dnsserver.go:497-497 | Two names are the same in lower case if and only if they differ at most in the case of ASCII letters. |
| DnsNames.QuestionIsWire | internal/dnsserver/dnsserver.go:472-498 | The octets that responses echo are the parsed labels in the wire form of section 3.1 of RFC 1035 with the type and class behind them. |
| DnsNames.ParsesIffWire | internal/dnsserver/dnsserver.go:472-498 | A query parses to given labels, type and end if and only if the labels have 1 to 63 octets and their wire form, the type and two more octets stand behind the header: the parser accepts every legal question and nothing else. |
| DnsNames.EncodeName | internal/dnsserver/zones.go:80-92 | The label loop writes the encoded name. |
| DnsNames.SplitDotsMeans | internal/dnsserver/zones.go:86-86 | The labels hold no dot and joined with dots are the name. |
| DnsExact.EncodedNameReadsIff | internal/dnsserver/zones.go:80-92 | A name, as encoded, is read back as its labels by the decoder of section 4.1 of RFC 1035 if and only if its labels have 1 to 63 octets. |
| DnsNames.EncodeTXTStrings | internal/dnsserver/dnsserver.go:565-576 | The loop writes the segments of the value as character strings. |
| DnsNames.SegmentsHold | internal/dnsserver/dnsserver.go:565-576 | The segments together are the whole value, and all but the last have 255 octets. |
| DnsBuild.SoaRDATA | internal/dnsserver/zones.go:95-105 | The names and the five numbers in order. |
| DnsBuild.AResponse | internal/dnsserver/dnsserver.go:501-524 | Emits the A answer. |
| DnsBuild.TxtResponse | internal/dnsserver/dnsserver.go:535-561 | Emits one TXT record per value. |
| DnsBuild.CnameNXDomainResponse | internal/dnsserver/dnsserver.go:581-608 | Emits the CNAME to dead.invalid. |
| DnsBuild.ErrorResponse | internal/dnsserver/dnsserver.go:624-643 | Emits the code with the question, or without one when there is none to echo. |
| DnsBuild.NsResponse | internal/dnsserver/zones.go:112-138 | Emits one NS record per host. |
| DnsBuild.SoaResponse | internal/dnsserver/zones.go:141-163 | Emits the SOA answer. |
| DnsBuild.NXDomainWithSOA | internal/dnsserver/zones.go:171-198 | Emits RCODE 3 with the SOA of the zone in the authority section. |
| DnsBuild.ZoneResponse | internal/dnsserver/dnsserver.go:435-467 | The apex, address and miss branches emit the decision for the name; DnsOutcomes says what a client reads. |
| DnsBuild.BuildResponse | internal/dnsserver/dnsserver.go:361-468 | The branches in their order give the response of the decision, dropped or its bytes and delay; DnsOutcomes says what a client reads. |
| DnsWire.NameReads | internal/dnsserver/zones.go:80-92 | A decoder of section 4.1 of RFC 1035, with pointers and no limit on whole names, reads back every name in wire form. |
| DnsWire.RDataReads | internal/dnsserver/zones.go:95-105 | It reads back A, NS, CNAME, SOA and TXT data. |
| DnsExact.EmitDecodesIff | internal/dnsserver/dnsserver.go:500-643 | Every response decodes to what is meant - same ID, QR and AA set, the code, the question echoed or none, exactly the meant records in each section with the pointer 0xC00C resolved to the question name, and no octets left - if and only if the decision fits on the wire: labels of 1 to 63 octets, data and counts that 16 bits can announce. |
| DnsAnswers.ResponseMeansDecision | internal/dnsserver/dnsserver.go:361-468 | For any query, faults, zones and TXT values: a query is dropped exactly when it is short or falls under a timeout or an unavailable name server without being an ACME challenge, the server crashes exactly when the decision is a panicking lookup (DnsCrashes.CrashesIff says for which queries), and otherwise its message decodes to what was decided if and only if that fits on the wire; with legal zone names, TXT values that fit and no overlapping pattern it never crashes and always fits. |
| DnsCrashes.CrashesIff | internal/dnsserver/dnsserver.go:361-453 | For any query, faults, zones and TXT values the server crashes if and only if no failure answers first and the query asks for the address of a non-empty name that is no record, that all earlier ranges miss, and that is the prefix of a range and what an overlap leaves of its suffix. |
| DnsCrashes.OverlapCrashes | internal/dnsserver/dnsserver.go:449-453 | The host of any overlap that is a legal name crashes the server when it is asked for in a plain query, unless a record or an earlier range takes it. |
| DnsCrashes.WebCrashes | internal/dnsserver/generated.go:60-102 | For example, the pattern web.%d.org parses to a range that a query for web.org crashes. |
| DnsAnswers.KnownNameMissed | internal/dnsserver/dnsserver.go:455-467 | Without failures, and whatever else is configured, a query for a name that has a record is answered with NXDOMAIN in the header if and only if it asks neither for the address nor, at the apex of its zone, for NS or SOA. |
| DnsAnswers.AcmeIgnoresFaults | internal/dnsserver/dnsserver.go:368-378 | ACME challenge queries with stored values are answered as if no failure were active. |
| DnsOutcomes.ChallengeAnswered | internal/dnsserver/dnsserver.go:368-378 | End to end: a TXT query for an ACME challenge name with stored values is answered at once, whatever fails, by a message that decodes to one TXT record per value with the stored TTL, if and only if these fit. |
| DnsOutcomes.FailureAnswered | internal/dnsserver/dnsserver.go:380-427 | End to end, for any other query and any failures: a timeout is silence; else SERVFAIL is code 2; else an unavailable name server is code 2 or silence by its mode; else a query without a readable name gets code 1; else NXDOMAIN is code 3 without records; else the alias failure is one CNAME to dead.invalid with the TTL of the record of that name, or 30. Each is sent after the latency of the failures and decodes so. |
| DnsOutcomes.RecordAnswered | internal/dnsserver/dnsserver.go:449-453 | End to end: an address query that no failure answers, for a name with a record, gets a message that decodes to exactly one A record with the address and TTL of that record. |
| DnsOutcomes.NameServersAnswered | internal/dnsserver/dnsserver.go:435-447 | A name server query at an apex is answered by one NS record per configured host, with the TTL of a record of the same name if that is positive and else the SOA minimum, if and only if these fit. |
| DnsOutcomes.SoaAnswered | internal/dnsserver/dnsserver.go:435-447 | An SOA query at an apex is answered by the SOA as configured, with the same TTL, if and only if it fits. |
| DnsOutcomes.MissInZone | internal/dnsserver/dnsserver.go:455-467 | Any other query for which nothing is configured gets code 3 with the SOA of its zone in the authority section, under the name of the zone and with the SOA minimum, if and only if these fit. |
| DnsOutcomes.MissOutside | internal/dnsserver/dnsserver.go:455-467 | Outside all zones, or without any, it gets the bare code 3. |
| DnsAnswers.GeneratedHostAnswered | internal/dnsserver/dnsserver.go:449-453 | End to end: an address query for the host that a range formats for one of its numbers is answered, without failures, by a message that decodes to one A record with the address and TTL of the range, if no record and no earlier range claims the host; nothing is asked of the rest of the configuration. |
| Tsv.ChainedIsOnePass | cmd/uptime-bench-finalize/main.go:822-828 | The chained replacements equal the one-pass replacer: none touches what an earlier one wrote. |
| Tsv.EscapedCharacters | cmd/uptime-bench-finalize/main.go:822-828 | Backslash, tab, line feed and carriage return become a backslash and a backslash, t, n or r; any other character stands for itself. |
| Tsv.UnescapeEscape | cmd/harness/artifacts.go:330-338 | Unescaping undoes escaping. |
| Tsv.WriteTSVRow | cmd/uptime-bench-finalize/main.go:812-820 | The loop writes the escaped fields with tabs between and a line feed at the end. |
| Tsv.RowRoundTrip | cmd/uptime-bench-finalize/main.go:812-820 | A row of at least one field is read back field for field, and reading stops where the next row begins. |

## Left out

- UniformSchedule.GenerateUniformSchedule: the jitter is exact real arithmetic truncated toward zero; the original rounds products to float64, whose rounding is not the point of the grid.
- CooldownSchedule.StretchInPlace: the rescaled offset is the exact quotient rounded down; float64 rounding of the scale factor is not modelled, and neither is overflow of a count times the cooldown, which would need a campaign of centuries.
- Escalation.PickEscalation: the failure parameters drawn for each stage are left out, and delays are added without 64-bit overflow.
- Schedule.GenerateSchedule: when it fails is characterised for designs with distinct IDs, none of which lists a target twice, as the generator makes them from a pool without repetition.
- GeneratedHosts.ParseGeneratedHostPattern: lower-casing, here and in all host names, is ASCII only; Unicode case folding is not modelled.
- FailureRegistry.Registry.Set: operations are taken one at a time under the mutex with times that do not decrease; reading the clock just before taking the lock, as Set does, could order two times the other way round.
- FailureRegistry.Registry.Lookup: the throttle's random stream is an arbitrary draw per call; the seeds derived for each failure type are left out.
- CertLibrary.SelectDefault: host normalization (ports, white space, case) is an arbitrary function on strings.
- TrafficMix.BuildBatches: random request IDs are left out, and weights are not negative, as the parser of the mix demands.
- ResultTally.ExecuteBatch: the answers of the endpoints, and the callbacks that arrived, are a parameter; latency samples, the submitted and RPC counters and the result file are left out.
- AdmissionSafety.StepKeepsInv: each channel operation is one atomic step; executing a batch is a step that can always finish, so request and drain timeouts are not modelled.
- DNS lookups of active failures are a record of faults beside the query, without the registry's calls in between; the zone apexes come as a list in the order in which the map happens to be visited.
- UDP and TCP framing, the TXT store's updates and the reload of zones.
- PRNG streams, SHA-256 seeds and FNV hashes: every draw is arbitrary.
- Generating the designs of a campaign (targets, types, severities, probabilities).
- HTTP, TLS, SSH and MySQL connections, retries of statements, JSON and TOML decoding, file writes, logs and Markdown.
- Resource samples, percentiles and rates.
- The follow-up, quorum and poison-batch commands, whose behaviour lives in remote services.
