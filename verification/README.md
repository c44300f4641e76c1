# Verified model of the disco daemon

disco finds hosts on a local network by UDP broadcast, serves their names over DNS and an NSS module,
and can set the system clock from GPS time broadcasts. This project models the parts of it that are
hardest to get right and proves properties of them for every input, every run or every interleaving.

| modules | what they model |
|---|---|
| `TimeMean`, `TimeSelection`, `TimeTolerance`, `TimeHull`, `OutlierWindows`, `OutlierTime`, `TimeService`, `TimeRuns` | choosing a time from several sources, when the mean stays between the sources, exactly what one faulty source can do, and the service that adjusts the clock, as a class and over whole runs |
| `Records`, `StoreRuns`, `SweepTransparency`, `LostMarks`, `AliasHistory`, `RecordHistory` | the host record store with its alias index and expiry sweep, as a class and over whole runs |
| `DnsViews`, `SrvViews`, `DnsAnswers`, `Decimal` | building records from announcements and answering A and SRV queries from them |
| `RateLimiter`, `ListenerGate`, `GateHistory`, `SignedCopies`, `Shutdown` | the token bucket, duplicate filter and signature gate, what they deliver over whole runs, and the readers, consumers and shutdown of the listener |
| `Announcement`, `Json`, `JsonCut`, `SignedPayload`, `Datagrams` | JSON text, whole and cut off, the announcement on the wire, and the payload that is signed and rebuilt |
| `NssScan`, `NssResponse`, `Hostent` | the NSS module's scanner for addresses in a response, whole and cut off, and its packing of a `hostent` |
| `Calendar` | the Arduino broadcaster's conversion of a calendar date to Unix time |

Code that updates fields or loops is modelled by classes and methods, each proved equal to a
specification function on values; the theorems are about those functions. `dafny verify dfyconfig.toml`
checks everything.

## Reading the model

- Clock readings, map iteration order, nonces, the message authentication code, `inet_pton`, and whether
  the operating system accepts an adjustment are parameters or free choices. A loop over a Go map picks
  its next key freely, so every result holds for every iteration order.
- Timestamps of time sources are signed 64-bit integers and their difference wraps as in Go. Dispersions,
  weights and offsets are real numbers.
- In runs of the time service, durations are measured on a monotonic clock that advances with true time;
  the wall clock is that clock plus an arbitrary skew at each reading.
- The stratum limit of 15 follows section 7.3 of RFC 5905; SRV answers follow RFC 2782, "The format of the
  SRV RR"; string escapes follow section 7 of RFC 8259.

## Where the code differs from what is promised

Each promise below fails on some input. Each bullet names a lemma that says, as an if-and-only-if, when the
promise holds, and, unless that condition already shows one, a lemma with an input on which it fails.

- `docs/ARCHITECTURE.md:79-81` promises that sources which agree within the permitted spread adjust the
  clock and that one malfunctioning source is tolerated. It fails in three ways.
  - With an outlier present only sources within half the permitted spread count as agreeing, so one outlier
    can stop synchronisation (`TimeTolerance.OneOutlierBlocksSelection`). Selection survives every
    additional report exactly when a quorum lies within half the spread
    (`TimeTolerance.OneFaultToleratedExactly`; for any set of sources, `TimeTolerance.SelectsExactly`).
  - The outlier can join a half-window at the edge of the good sources that then wins over their own quorum,
    and pull the time more than the permitted spread away from a good source
    (`OutlierTime.OutlierDisplacesQuorum`). One more report neither stops synchronisation nor pulls the time
    away exactly when the largest half-window of the good sources is a quorum, larger than any window an
    early outlier can open among them and no smaller than any a late outlier can close
    (`OutlierTime.ToleratedExactly`, for positive weights and a spread that does not wrap).
  - The spread is a 64-bit difference: at 2^63 ns it wraps to a negative number and every source is accepted
    (`TimeTolerance.OneFaultySourceMovesTheClock`). The participating sources agree within the permitted
    spread exactly when the spread fits (`TimeTolerance.ChosenAgreeExactly`).
- The mean is meant to lie between the sources. A dispersion below -0.0001 passes the filter and gives a
  negative weight, and the selected time can then lie outside their range
  (`TimeHull.NegativeDispersionLeavesHull`). It is defined and inside for all timestamps exactly when all
  weights have one sign (`TimeHull.HullExactly`).
- The expiry sweep is not always invisible to `Get`: an expired host that is still stored hides a live host
  that uses its name as an alias (`SweepTransparency.SweepCanShow`). Every placement of sweeps gives the same
  answer exactly when no such shadow is there (`SweepTransparency.SweepsInvisibleToGetExactly`).
- Lookups and the sweep agree on which records are gone exactly when the grace period does not exceed the
  expiry time, which nothing validates (`Records.HiddenMeansExpired`, whose proof holds the failing record).
- `docs/cli.md:59` says that a host marked lost is removed on the next cleanup. It is not
  (`LostMarks.MarkedHostSurvives`): the next sweep removes it exactly when its age says so
  (`LostMarks.SweepOfMarkedExactly`), and over whole runs marks have no effect at all
  (`LostMarks.MarksDoNotShow`).
- The NSS scanner looks for the key as plain text. A request id that ends in the quoted key, together with a
  host name that holds a bracket, misleads it (`NssResponse.RequestIdCanMislead`); those ids are exactly the
  unsafe ones (`NssResponse.SafeIdsExactly`), and the module never sends one (`NssScan.ClientIdsAreSafe`).
- The rate limiter throws fractions of a second away on every call, so it does not sustain its rate: calls
  less than a second apart never earn a token, however long they go on
  (`RateLimiter.HurriedCallsNeverRefill`). A call is allowed exactly when a token is left or a full second
  has passed since the call before (`RateLimiter.AllowedExactly`).
- `docs/ARCHITECTURE.md:71` and `docs/how-to/security.md:77` promise that captured announcements cannot be
  replayed, because old ones are rejected. The authentication code covers the nonce and the payload, not the
  date that the freshness test reads, so this protects a message only as long as its date is left alone.
  - Unchanged copies can be delivered twice (`ListenerGate.FreshEnvelopeReplays`), since the duplicate filter
    forgets after 300 s while the freshness test counts whole seconds: exactly when the first delivery is
    before the last nanosecond of the signed second (`ListenerGate.TwiceExactly`); never three times
    (`ListenerGate.AtMostTwice`).
  - Copies that carry other dates are accepted inside the windows of those dates
    (`SignedCopies.DatedPassesExactly`), and without a limit on the dates there is no bound on deliveries
    (`SignedCopies.NoBoundAcrossDates`). Copies of one signed payload are delivered at most twice in every
    run exactly when their dates lie less than 300 s apart (`SignedCopies.AtMostTwiceExactly`), and a copy
    can be followed by another exactly when some date is not yet over (`SignedCopies.AgainExactly`).
- A valid announcement is meant to get through. The duplicate filter runs before the signature check, so an
  invalid message with the same id blocks it (`GateHistory.FirstArrivalBlocks`). An arrival is delivered
  exactly when it passes the checks and every earlier arrival of its id that was taken for new, valid or
  not, has been forgotten (`GateHistory.LogIsHistory`).
- A service is meant to keep its announced port. It does exactly when its address is plain or one bracketed
  group; any other address with a colon hides the port (`SrvViews.ReadPrinted`).
- A listener is meant to keep reading until shutdown. A channel without a consumer fills up and blocks its
  reader (`Shutdown.BlockedIsReachable`); the daemon starts the time consumer only when time synchronisation
  is on. Every reader can always move exactly when all three channels have a consumer
  (`Shutdown.ProgressExactly`).
- An announcement longer than the 4096-byte read buffer is lost. A receiver decodes a message exactly when
  it fits (`Datagrams.ReceivedExactly`).
- On a board whose `int` has 16 bits the calendar conversion is defined exactly for dates through 2059-09-18
  (`Calendar.ConvertsExactly`).

## Model

| member | source | states |
|---|---|---|
| `TimeSelection.SelectBestTime` | internal/timesync/selection.go:15-70 | the sort, the 64-bit spread test, the window search and the mean together return `Select`, which is defined without any order on the sources; sources may come in any order |
| `TimeTolerance.UsablesExactly` | internal/timesync/selection.go:20-29 | exactly the sources of stratum at most 15 and dispersion at most 1.0 get past the filter |
| `TimeTolerance.UnusableIgnored` | internal/timesync/selection.go:20-29 | once enough sources report, one more of stratum above 15 or dispersion above 1.0 changes nothing in the outcome |
| `TimeTolerance.ErrorsExactly` | internal/timesync/selection.go:16-46 | each of the three errors is returned if and only if there are too few sources, too few usable ones, or neither a permitted spread nor a half-spread quorum |
| `TimeSelection.SelectDependsOnMultisetOnly` | internal/timesync/selection.go:35-69 | any two orders of the same sources give the same outcome: success or the same error, same source count, same time |
| `TimeSelection.SortByTimestamp` | internal/timesync/selection.go:35-37 | the result is sorted by timestamp and a permutation; ties may fall either way |
| `TimeSelection.AgreeingRun` | internal/timesync/selection.go:82-89 | on sorted input the inner loop returns all of the suffix from `i` on that lies within the tolerance of source `i`, stopping at the first that does not |
| `TimeSelection.FindAgreeingSubset` | internal/timesync/selection.go:72-96 | on sorted input the result is the window that starts at the earliest best start, whole tie groups included |
| `TimeSelection.WindowIsOptimal` | internal/timesync/selection.go:72-96 | the window's members differ pairwise by at most the tolerance, and no subset of the sources with that property, contiguous or not, is larger |
| `TimeSelection.BestStartUnique` | internal/timesync/selection.go:80-93 | at most one start wins: largest window, earliest on ties |
| `TimeSelection.WindowOfRun` | internal/timesync/selection.go:80-89 | on sorted input a run from a tie group's first member up to the first source out of tolerance is the whole window, so ties never split |
| `TimeSelection.SameMultisetSameChoice` | internal/timesync/selection.go:39-49 | reordering the sources reorders the chosen ones and changes none of them |
| `TimeMean.WeightedMean` | internal/timesync/selection.go:51-60 | the accumulators give the truncated quotient of weighted time and total weight, or a success without a defined time when a divisor is zero or the quotient does not fit 64 bits |
| `TimeMean.MeanInsideHull` | internal/timesync/selection.go:51-60 | with positive weights the mean exists and lies between any bounds of the chosen timestamps |
| `TimeTolerance.MeanOfTwo` | internal/timesync/selection.go:51-60 | two agreeing sources: the time divides their distance in the ratio of their dispersions plus 0.0001 |
| `TimeTolerance.SelectOne` | internal/timesync/selection.go:15-69 | with a quorum of one a single usable source gives exactly its own time, and an unusable one the error |
| `TimeTolerance.OutlierTolerance` | internal/timesync/selection.go:39-70 | if `minSources` usable sources lie within half the permitted spread of each other, selection succeeds with at least that many, whatever the others say; if they outnumber the others and the spread fits, the time is within the permitted spread of each of them |
| `TimeTolerance.SelectsExactly` | internal/timesync/selection.go:15-70 | selection succeeds if and only if enough sources are usable and either the computed spread is permitted or enough of them lie within half the permitted spread of each other |
| `TimeTolerance.OneFaultToleratedExactly` | docs/ARCHITECTURE.md:79-81 | for sources that agree as documented, selection succeeds whatever one more source reports if and only if a quorum of them lies within half the permitted spread |
| `TimeTolerance.OneFaultKeepsTime` | docs/ARCHITECTURE.md:79-81 | if all good sources, two or more, lie within half the permitted spread and the outlier does not make the spread wrap, the time stays within the permitted spread of each; a special case of `OutlierTime.ToleratedExactly` |
| `OutlierTime.ToleratedExactly` | docs/ARCHITECTURE.md:79-81 | for good sources within the permitted spread: whatever one more source reports with a positive weight and a spread that fits, enough take part and the mean before rounding stays within the permitted spread of every good source, if and only if their largest half-window is a quorum and beats every window an outlier can open on the left or close on the right |
| `OutlierTime.ToleratedSelects` | internal/timesync/selection.go:39-69 | then selection succeeds and its rounded time is within the permitted spread of every good source |
| `OutlierTime.HarmlessExactly` | internal/timesync/selection.go:39-60 | a given outlier leaves the mean within the permitted spread of every good source, whatever weight it claims, if and only if it is itself within that spread of them all or does not take part |
| `OutlierTime.DraggedExactly` | internal/timesync/selection.go:39-49 | a far outlier takes part if and only if it and the good sources near it are at least as many (early) or more (late) than the largest half-window of good sources |
| `OutlierTime.OutlierDisplacesQuorum` | internal/timesync/selection.go:72-96 | good sources at 0, 0.4 and 0.9 s and one outlier at -0.2 s give -0.18 s, more than the permitted second away from the third |
| `OutlierWindows.EarlyWins` | internal/timesync/selection.go:80-93 | a source before all others opens the chosen window if and only if it and its neighbours are at least as many as the largest window of the others |
| `OutlierWindows.LateWins` | internal/timesync/selection.go:80-93 | a source after all others is in the chosen window if and only if it and its neighbours are more than the largest window of the others |
| `TimeTolerance.OneOutlierBlocksSelection` | internal/timesync/selection.go:43-47 | two sources 0.8 s apart synchronise with a permitted spread of 1 s; with one more source 10 s off they do not |
| `TimeTolerance.EnoughChosen` | internal/timesync/selection.go:41-47 | selection succeeds as soon as enough sources take part, and counts them |
| `TimeTolerance.BestTimeNearChosen` | internal/timesync/selection.go:51-60 | the time is as close to every chosen source as the chosen sources are to each other |
| `TimeTolerance.Pigeonhole` | internal/timesync/selection.go:39-49 | two subsets of the sources that together outnumber them share a source |
| `TimeTolerance.SpreadTestExact` | internal/timesync/selection.go:39-43 | the test `spread > maxSpread` answers the intended question if and only if the true spread is below 2^63 ns |
| `TimeTolerance.ChosenAgreeExactly` | internal/timesync/selection.go:39-49 | the participating sources agree within the permitted spread if and only if the true spread of the usable ones is below 2^63 ns |
| `TimeTolerance.WrappedSpreadAcceptsEverything` | internal/timesync/selection.go:39-49 | otherwise every usable source takes part, for every such input |
| `TimeTolerance.OneFaultySourceMovesTheClock` | docs/ARCHITECTURE.md:79-81 | three sources equal to the nanosecond and one dated 1684 give a time more than 80 years away from the three |
| `TimeHull.NegativeDispersionLeavesHull` | internal/timesync/selection.go:22-27 | two usable, agreeing sources stamped 0 and 10 for which selection gives -10 because one dispersion is negative |
| `TimeHull.HullExactly` | internal/timesync/selection.go:51-60 | for given dispersions the selected time is defined and, rounded, lies between the timestamps, whatever these are, if and only if all weights have the same sign |
| `TimeService.OffsetRoundTrip` | internal/timesync/clock.go:27-28 | an offset in nanoseconds divided into seconds and multiplied back is the same offset |
| `TimeService.ListingsAgree` | internal/timesync/store.go:48-62 | any two listings of the fresh sources lead to the same selection, whatever the map order |
| `TimeService.TimeSyncService.constructor` | internal/timesync/service.go:38-45 | a new service has no sources, is not synced and has applied nothing |
| `TimeService.TimeSyncService.ProcessMessage` | internal/timesync/service.go:47-62 | an accepted report replaces the source's previous one, whatever its dispersion; a disabled service or a missing required signature changes nothing |
| `TimeService.TimeSyncService.GetValidSources` | internal/timesync/store.go:48-62 | the result lists exactly the sources not older than the stale age, each once, in some order |
| `TimeService.TimeSyncService.EvaluateAndAdjust` | internal/timesync/service.go:78-131 | one poll takes the service to the next state: synced with count and offset and the adjustment handed over, or not synced with the error and the old count |
| `TimeService.TimeSyncService.ForceUpdate` | internal/timesync/service.go:143-206 | the same with the forced clock settings; a failed selection leaves the status alone; the reported count is the stored one exactly when selection and adjustment succeed |
| `TimeService.TimeSyncService.Adjust` | internal/timesync/clock.go:27-51 | no adjustment, slew or step as the thresholds and the backward rule say (in numbers: `TimeRuns.PollExactly`), recorded with its target |
| `TimeRuns.SyncedHasQuorum` | internal/timesync/service.go:78-131 | in every reachable state, whatever messages arrived, a synced service has at least `minSources` sources behind it |
| `TimeRuns.NeverBackward` | internal/timesync/clock.go:27-51 | whatever messages arrived, if neither the configuration nor any forced update allows it, no adjustment ever handed over in a run is negative |
| `TimeRuns.PollExactly` | internal/timesync/service.go:78-131 | a poll sets synced exactly when selection succeeds, with its count and offset; nothing is handed over if the distance is below the slew threshold or backward without permission, otherwise exactly one adjustment by that distance: a step to the wall clock plus it from the step threshold on, a slew below; a failure changes the flag and the error only |
| `TimeRuns.ForceExactly` | internal/timesync/service.go:143-206 | the same for a forced update with 1 µs and 1 ms as thresholds; a failed selection changes nothing |
| `TimeRuns.SelectsFromFresh` | internal/timesync/store.go:48-62 | an evaluation selects from exactly the stored reports that are at most the stale age old |
| `TimeRuns.SourcesAreLastReports` | internal/timesync/store.go:31-46 | after any run the store holds for each source exactly its last report that was taken, field by field |
| `TimeRuns.SomeChosenIsHonest` | internal/timesync/selection.go:45-49 | with fewer faulty fresh sources than the quorum, some chosen source is not faulty |
| `TimeRuns.HonestNearSelected` | internal/timesync/selection.go:45-60 | and the selected time is within the permitted spread of that source's report |
| `TimeRuns.SelectedNearTrueTime` | internal/timesync/service.go:78-81 | a selection that does not fail has a defined time, at most spread plus error ahead of true time and at most stale age plus spread plus error behind it, for any number of sources |
| `TimeRuns.StepTargetsNearTrueTime` | internal/timesync/service.go:78-131 | over every run in which the faults stay contained, every step target obeys that bound at the moment it is applied, plus the time between snapshot and selection |
| `Records.HiddenMeansExpired` | internal/daemon/health.go:44-89 | lookups hide a record exactly when the sweep deletes it, for all records and instants, if and only if the grace period does not exceed the expiry time |
| `Records.RecordStore.constructor` | internal/daemon/store.go:24-43 | a new store holds the static hosts and an empty index |
| `Records.RecordStore.RemoveAliasesForHost` | internal/daemon/store.go:50-58 | exactly the entries that lead to the host are gone |
| `Records.RecordStore.IndexAliases` | internal/daemon/store.go:137-140 | every listed alias leads to the host, all others are as before |
| `Records.RecordStore.Lookup` | internal/daemon/store.go:60-83 | hostname before alias, hidden records are not found, whichever way the record was reached |
| `Records.RecordStore.LookupByAddr` | internal/daemon/store.go:85-112 | finds some visible record with the address if there is one, and none only if there is none |
| `Records.RecordStore.Update` | internal/daemon/store.go:114-141 | static hosts are left alone; otherwise old aliases go, the record is stamped keeping its first-seen time, new aliases are indexed |
| `Records.RecordStore.ForgetHost` | internal/daemon/store.go:191-199 | a stored non-static host and its aliases are removed |
| `Records.RecordStore.MarkHostLost` | internal/daemon/store.go:182-189 | the cached status of a non-static host becomes lost and nothing else changes |
| `Records.RecordStore.ListRecords` | internal/daemon/store.go:151-168 | lists exactly the visible records, each once |
| `Records.RecordStore.RefreshAndList` | internal/daemon/store.go:201-238 | every stored record gets its current status and exactly the visible ones are listed, each once |
| `Records.RecordStore.SweepExpired` | internal/daemon/store.go:240-265 | exactly the expired non-static records and the index entries that lead to them are gone, in any order of deletion |
| `Records.AddOrUpdateValid` | internal/daemon/store.go:114-141 | an announcement keeps the store invariant: index entries lead to stored records that list them, exactly the configured hosts are static |
| `Records.SweepValid` | internal/daemon/store.go:240-265 | a sweep keeps the store invariant |
| `StoreRuns.NextValid` | internal/daemon/store.go:114-265 | every event keeps the store invariant |
| `StoreRuns.RunValid` | internal/daemon/store.go:24-265 | the invariant holds after every run |
| `SweepTransparency.SweepInvisible` | internal/daemon/store.go:240-265 | a sweep does not change the observable records and index entries |
| `SweepTransparency.NextObserved` | internal/daemon/store.go:114-265 | stores that look alike still look alike after any event at a later instant (the bisimulation step) |
| `SweepTransparency.MarkLostInvisible` | internal/daemon/store.go:182-189 | marking a host lost changes nothing that lookups can show |
| `LostMarks.SweepOfMarkedExactly` | internal/daemon/store.go:253-262 | the next sweep removes a marked host if and only if its age has reached the expiry time |
| `LostMarks.MarkedHostSurvives` | docs/cli.md:59-59 | with any expiry of a second or more every announced host outlives a mark and the next sweep and is still found by name |
| `LostMarks.NextSameButStatus` | internal/daemon/store.go:114-265 | stores that differ only in cached statuses differ only in those after any event |
| `LostMarks.DroppingMarks` | internal/daemon/store.go:182-189 | a run and the same run without marks end in the same store but for cached statuses, however the clock moves |
| `LostMarks.MarksDoNotShow` | internal/daemon/store.go:182-189 | runs that differ only in marks look alike at every instant and answer every lookup by name alike |
| `LostMarks.MarksRemoveNobody` | internal/daemon/store.go:182-189 | they store the same hosts and index the same aliases |
| `SweepTransparency.DroppingSweeps` | internal/daemon/store.go:240-265 | a run and the same run without sweeps look alike at every later instant |
| `SweepTransparency.SweepsDoNotShow` | internal/daemon/store.go:60-265 | any two runs that differ only in their sweeps look alike at every later instant |
| `SweepTransparency.SweepsOnlyDrop` | internal/daemon/store.go:253-262 | sweeping never leads to a host being stored that is not stored without |
| `SweepTransparency.GetTransparency` | internal/daemon/store.go:60-83 | two such runs answer `Get` alike if and only if the name is shadowed in both or in neither |
| `SweepTransparency.SweepsInvisibleToGetExactly` | internal/daemon/store.go:60-83 | every placement of sweeps gives the same answer for a name if and only if the run without sweeps does not shadow it |
| `SweepTransparency.NeverAnAlias` | internal/daemon/store.go:137-140 | a name that no announcement lists as an alias is never in the index |
| `SweepTransparency.HostnameGetTransparency` | internal/daemon/store.go:60-83 | for a name that is never an alias, sweeps never change the answer |
| `SweepTransparency.SweepCanShow` | internal/daemon/store.go:60-83 | in every configuration with an expiry of a second or more, a run after which a name resolves only once the sweep has removed an expired host of that name |
| `SweepTransparency.ListingObserved` | internal/daemon/store.go:151-168 | every listing shows exactly the observable records |
| `SweepTransparency.ListTransparency` | internal/daemon/store.go:151-238 | runs that differ only in sweeps list the same records with the same statuses |
| `SweepTransparency.GetByAddrTransparency` | internal/daemon/store.go:85-112 | whatever one such run may answer for an address, the other may answer too |
| `AliasHistory.RecordsRefineHistory` | internal/daemon/store.go:114-265 | after any run a non-static host is stored exactly when some announcement of it stands (not repeated, forgotten or swept since), and the record reflects that announcement, its time to live filled in from the configuration when it is zero |
| `AliasHistory.IndexRefinesHistory` | internal/daemon/store.go:50-58 | after any run alias a leads to h exactly when h stands on an announcement that lists a and nobody has claimed a since |
| `RecordHistory.FirstSeenExactly` | internal/daemon/store.go:126-132 | after any run a stored host has been there since one announcement and was first seen then; later announcements keep that time and a removed host starts again |
| `RecordHistory.StaticHostStays` | internal/daemon/health.go:17-42 | in every run a static host keeps its configured addresses and services, has no aliases and is found by name at every instant |
| `RecordHistory.StaticServicesExactly` | internal/daemon/health.go:31-37 | its service is the last configured one of that name, over TCP unless it says otherwise |
| `RecordHistory.RefreshedByAge` | internal/daemon/health.go:44-63 | after a refresh or a sweep every record is healthy below the grace period, stale below the expiry time and lost otherwise |
| `RecordHistory.AnnouncedByAge` | internal/daemon/store.go:133-137 | and so is a host right after its announcement |
| `DnsViews.HandleAQuery` | internal/dns/server.go:135-178 | the answer to a query for a name in the domain is `AResponse` of the first record with that hostname or alias, and empty for any other query |
| `DnsViews.ScanAliases` | internal/dns/server.go:148-156 | found exactly when the name is one of the aliases |
| `DnsViews.AnswerAddresses` | internal/dns/server.go:157-174 | the loop gives `AddressAnswers` of the record, which `DnsAnswers.AddressAnswersExactly` pins down |
| `DnsViews.AnswerName` | internal/dns/server.go:146-177 | the loop stops at the first record that goes by the name |
| `DnsAnswers.AddressAnswersExactly` | internal/dns/server.go:157-174 | exactly the IPv4 addresses of the record are answered, in order, under the query name, with the stale time to live if and only if it is stale |
| `DnsAnswers.EntriesExactly` | internal/dns/server.go:159-163 | each IPv4 entry as often as it is listed and nothing else |
| `DnsViews.QueryNameInjective` | internal/dns/server.go:136-140 | two names give the same query name only if they are equal |
| `DnsViews.AliasesStayIndexed` | internal/daemon/store.go:114-149 | in every run where no two stored records go by one name, every listed alias stays indexed |
| `DnsViews.GetFindsTheMatch` | internal/daemon/store.go:60-83 | then a lookup finds a record if and only if it is stored, visible and goes by the name |
| `DnsViews.IndexAgreesWithScan` | internal/dns/server.go:135-178 | in every such run the store's lookup and the DNS handler's linear scan of any listing find the same record or none |
| `DnsAnswers.AAnswersAnnounced` | internal/dns/server.go:135-178 | over any listing after a clash-free run, the A query for the hostname or any announced alias of a host answers exactly the IPv4 entries of the announced addresses, in order, with the stale time to live from the grace period on, and nothing once the host has expired |
| `DnsAnswers.RefreshedRecord` | internal/daemon/daemon.go:257-279 | the stored record of an announced host has its machine id, addresses, aliases and time to live, and the visibility and staleness of its age |
| `DnsAnswers.StaticSrvAnswer` | internal/dns/server.go:237-258 | a static host answers for a configured service and its protocol, at every instant of every run, with one record without a port |
| `DnsViews.BuildRecord` | internal/daemon/daemon.go:257-279 | the nested loops build the record with the service map and the deduplicated aliases |
| `DnsViews.AppendNew` | internal/daemon/daemon.go:270-275 | the inner loop appends exactly the aliases not seen before, in order |
| `DnsViews.AllAliasesFacts` | internal/daemon/daemon.go:267-276 | the record lists every alias of every service once and nothing else |
| `SrvViews.ServiceMapHoldsLast` | internal/daemon/daemon.go:268-269 | a service is in the map if and only if it was announced, with the value of its last listing |
| `SrvViews.ReadPrinted` | internal/daemon/store.go:212-226 | printing address and port, splitting and parsing gives the port back if and only if the address is plain or one bracketed group; otherwise the whole value is read as a protocol name |
| `SrvViews.HandleSRVQuery` | internal/dns/server.go:223-260 | the handler splits the query name, checks the domain and returns the answers of each listed record in order |
| `SrvViews.ScanServices` | internal/dns/server.go:239-259 | the loops over records and services, in any order of the service map, give each record at most one answer |
| `SrvViews.SrvNameExactly` | internal/dns/server.go:224-237 | a query asks for a service and protocol if and only if its name is the two labels, with or without underscores, in front of the domain |
| `SrvViews.SrvNameRoundTrip` | internal/dns/server.go:224-237 | the name of RFC 2782 for a service and protocol is parsed as them |
| `SrvViews.SrvCarriesAnnouncedPort` | internal/dns/server.go:223-260 | over any listing of the visible records after any run, the response to a query for a service has exactly one answer for a visible host that stands on an announcement of it with a separable address: priority 10, weight 60, the time to live of its status and the port of its last listing; none for a service not announced or with another address, and none for an expired host |
| `DnsAnswers.SrvAnswersAnnounced` | internal/dns/server.go:223-260 | the same by age: the stale time to live from the grace period on, and no answer once the host has expired |
| `SrvViews.WireKeepsRecord` | internal/daemon/daemon.go:257-279 | encoding and decoding a message changes nothing in the record built from it |
| `SrvViews.PortReachesClient` | internal/dns/server.go:223-260 | a service announced on one host, encoded, decoded, filed and queried on another, yields exactly one answer with the announced port |
| `SrvViews.SrvAnswersComplete` | internal/dns/server.go:223-260 | an answer is given if and only if some listed record contributes it |
| `Decimal.AtoiPrintInt` | internal/daemon/store.go:219-224 | parsing a printed integer gives the integer |
| `RateLimiter.Limiter.constructor` | internal/discovery/ratelimit.go:23-37 | non-positive settings become 10 and the bucket starts full |
| `RateLimiter.Limiter.Allow` | internal/discovery/ratelimit.go:39-59 | refill by whole seconds up to the burst, spend one token if there is one |
| `RateLimiter.TokenBucketCap` | internal/discovery/ratelimit.go:39-59 | between any call and any later one at most burst plus rate per whole elapsed second are allowed, over every call sequence |
| `RateLimiter.SpacedCallAllowed` | internal/discovery/ratelimit.go:39-59 | a call a second or more after the previous one is allowed |
| `RateLimiter.AllowedExactly` | internal/discovery/ratelimit.go:39-59 | a call is allowed if and only if a token is left or a full second has passed since the call before, whatever came earlier |
| `RateLimiter.RefusedUntilASecondPasses` | internal/discovery/ratelimit.go:39-59 | after a refusal calls are refused until one comes a full second after the one before it, and that one is allowed |
| `RateLimiter.ScheduledBroadcastsAllowed` | internal/discovery/broadcast.go:155-178 | with the validated interval of at least five seconds, room for three tokens and a limiter created at any time before the ticker, no scheduled broadcast is refused, wherever the loop is held up and however many ticks are dropped |
| `RateLimiter.ScheduleAllowedExactly` | internal/discovery/broadcast.go:155-178 | no scheduled broadcast of any run is refused if and only if the bucket holds at least three tokens; the announcer's holds ten |
| `RateLimiter.ThreeCallsSpaced` | internal/discovery/broadcast.go:155-167 | with a ticker that keeps one tick, a call and the third one after it are always an interval apart |
| `RateLimiter.HurriedCallsNeverRefill` | internal/discovery/ratelimit.go:44-48 | over a run of calls less than a second apart exactly the first tokens are handed out and no more |
| `RateLimiter.BurstExactly` | internal/discovery/ratelimit.go:39-59 | after a pause of any length, calls less than a second apart are allowed exactly as many times as were left plus rate per whole second of the pause, up to the burst |
| `ListenerGate.SignedIsAccepted` | internal/security/signing.go:158-206 | a peer with the signer's secret accepts a signed payload if and only if it is inside the freshness window |
| `ListenerGate.Listener.constructor` | internal/discovery/broadcast.go:380-413 | a new listener has seen and delivered nothing |
| `ListenerGate.Listener.Seen` | internal/discovery/ratelimit.go:87-99 | true exactly for a remembered id; a new one is remembered with its instant |
| `ListenerGate.Listener.CleanupTick` | internal/discovery/ratelimit.go:101-121 | exactly the ids older than the lifetime are forgotten |
| `ListenerGate.Listener.HandleDatagram` | internal/discovery/broadcast.go:440-553 | header, duplicate filter, decoding and signature in this order decide whether the datagram is delivered |
| `ListenerGate.DeliveriesApart` | internal/discovery/ratelimit.go:87-121 | two deliveries of one message id are more than 300 s apart, in every run |
| `ListenerGate.DeliveriesPassed` | internal/discovery/broadcast.go:467-497 | every delivery is of a datagram that arrived at that instant and passed the checks then |
| `ListenerGate.DeliveredInWindow` | internal/security/signing.go:180-206 | with signing required every delivered host or time message carries a signature that verifies inside its window |
| `ListenerGate.DeliveredAuthentic` | internal/security/signing.go:180-206 | in every run a delivered host or time message is signed if signing is required, and where keys are configured its signature is the code of its payload and nonce under the secret of a trusted peer, dated at most 300 s back and not in the future |
| `ListenerGate.AtMostTwice` | internal/discovery/broadcast.go:448-497 | with signing required no run delivers one envelope, date included, three times |
| `ListenerGate.AtMostOnceWhenLate` | internal/discovery/broadcast.go:448-497 | if the envelope is delivered in the last nanosecond of its signed second or later, no run delivers it, unchanged, again |
| `ListenerGate.TwiceExactly` | internal/discovery/broadcast.go:448-497 | for every authentication code, key and envelope that verifies at its delivery, some run delivers it, unchanged, again if and only if a nanosecond later it is still its signed second |
| `ListenerGate.FreshEnvelopeReplays` | internal/discovery/ratelimit.go:101-121 | every envelope delivered the instant it was signed can be delivered again, unless that was the last nanosecond of a second |
| `SignedCopies.DatedPassesExactly` | internal/security/signing.go:180-206 | a copy of an authentic payload that carries any date passes if and only if it is inside the window of that date |
| `SignedCopies.DatedNowPasses` | docs/ARCHITECTURE.md:71-71 | so a copy dated now passes at every instant |
| `SignedCopies.CopyRunDelivers` | internal/discovery/broadcast.go:448-497 | a run of copies, each fresh by its date and more than the filter lifetime after the one before, delivers all of them |
| `SignedCopies.NoBoundAcrossDates` | docs/how-to/security.md:77-77 | for every authentic payload, instant and number there is a run that delivers that many copies of it |
| `SignedCopies.AtMostTwiceExactly` | internal/security/signing.go:193-198 | for every set of dates, no run whose copies carry those dates delivers three of them if and only if the dates lie less than 300 s apart |
| `SignedCopies.AgainExactly` | internal/security/signing.go:193-198 | after a delivery some run delivers another copy if and only if one of the dates is not over a nanosecond later |
| `GateHistory.FilterIsHistory` | internal/discovery/ratelimit.go:87-121 | after any run on any clock the filter knows an id, by its instant, exactly when an arrival of it was taken for new and not forgotten since |
| `GateHistory.LogIsHistory` | internal/discovery/broadcast.go:440-505 | the deliveries of any run are, in order, exactly the arrivals that decode, pass at their instant and are taken for new |
| `GateHistory.FirstArrivalDelivered` | internal/discovery/broadcast.go:448-497 | a valid message whose id has not arrived before is delivered |
| `GateHistory.FirstArrivalExactly` | internal/discovery/broadcast.go:448-553 | a message whose id has not arrived before is delivered if and only if it is a location message or satisfies those conditions |
| `GateHistory.FirstArrivalBlocks` | internal/discovery/broadcast.go:448-450 | a first arrival of an id, even one that fails every check, blocks a valid message with that id until a cleanup more than the filter lifetime later |
| `Shutdown.StepKeepsInvariant` | internal/discovery/broadcast.go:420-578 | every step of every goroutine keeps: channels hold at most their capacity and close in order, after the stop channel, when no reader is past its check |
| `Shutdown.NeverPanics` | internal/discovery/broadcast.go:567-578 | the invariant, and with it the absence of a send on a closed channel or a second close, holds after every schedule |
| `Shutdown.ListenerNeverPanics` | internal/discovery/broadcast.go:420-578 | from a fresh listener with any number of sockets and any consumers no schedule panics |
| `Shutdown.StepLowersRank` | internal/daemon/daemon.go:375-382 | once the stop channel is closed every step lowers the rank |
| `Shutdown.NotStuck` | internal/discovery/broadcast.go:567-578 | until shutdown is complete some step other than a consumer's is possible |
| `Shutdown.StopTerminates` | internal/discovery/broadcast.go:567-578 | after the stop channel is closed at most `Rank` steps remain, and a schedule that cannot go on has closed all three channels |
| `Shutdown.BlockedUntilShutdown` | internal/discovery/broadcast.go:538-542 | a reader with a message for a full channel without a consumer does not move in any schedule without shutdown |
| `Shutdown.MovesExactly` | internal/discovery/broadcast.go:494-499 | before shutdown some schedule takes a reader off its message if and only if the channel has room or a consumer |
| `Shutdown.FillsUp` | internal/discovery/broadcast.go:420-505 | from a fresh listener a schedule puts any number of messages up to the capacity in any channel |
| `Shutdown.BlockedIsReachable` | internal/daemon/daemon.go:188-205 | a channel without a consumer gets its reader blocked in some schedule from the start |
| `Shutdown.ProgressExactly` | internal/daemon/daemon.go:188-205 | in every interleaving from the start every reader can move until shutdown if and only if all three channels have a consumer |
| `SignedPayload.CollectServices` | internal/discovery/broadcast.go:249-254 | lists each service of the map once, in some order |
| `SignedPayload.CreateAnnouncement` | internal/discovery/broadcast.go:248-306 | fields of the announcement, and a signature over the payload of the finished message when there is a key and a nonce |
| `SignedPayload.MessageRoundTrip` | internal/discovery/broadcast.go:462-465 | decoding the encoded fields gives the message back, up to empty alias lists becoming nil |
| `SignedPayload.PayloadAgreement` | internal/discovery/broadcast.go:462-492 | for every message the receiver that decodes the text finds the sender's signature and rebuilds exactly the payload that was signed |
| `SignedPayload.PayloadDetermines` | internal/discovery/broadcast.go:271-294 | two messages have the same payload if and only if type, id, timestamp, hostname, addresses, services and time to live are the same; only the machine id and the signature are not covered |
| `SignedPayload.ChangedNeedsCollision` | internal/security/signing.go:180-206 | a message with another's signature that differs in anything covered is accepted only if the authentication code of two different payloads coincides |
| `SignedPayload.SignedAnnouncementAccepted` | internal/security/signing.go:158-206 | after the trip over the wire a trusting peer accepts the announcement if and only if it is inside the freshness window |
| `Datagrams.ReceivedExactly` | internal/discovery/broadcast.go:410-446 | through the 4096-byte buffer a receiver decodes the message if it fits, and decodes nothing otherwise: a cut announcement is never taken for another one |
| `Datagrams.Utf8RoundTrip` | internal/discovery/broadcast.go:410-441 | the bytes counted for a character are its UTF-8 encoding: they stand for it again, and the first tells how many there are |
| `Datagrams.AcceptedExactly` | internal/security/signing.go:158-206 | a trusting peer accepts a signed announcement if and only if it fits the buffer and the freshness window |
| `JsonCut.ReadLonger` | internal/discovery/broadcast.go:443-446 | reading a complete value does not depend on the text after it |
| `JsonCut.CutIsNoObject` | internal/discovery/broadcast.go:443-446 | no proper beginning of an encoded object, with or without damage at its end, is an object |
| `Json.ReadEscaped` | internal/discovery/broadcast.go:462-465 | reading an escaped string gives the string and stops at its closing quote |
| `Json.EscapedIsSafe` | internal/discovery/broadcast.go:271-294 | an encoded string holds no control character, HTML character or line separator |
| `Json.OrdinaryUnescaped` | internal/discovery/broadcast.go:271-294 | any other character except quote and backslash is written as it is |
| `Json.ReadWritten` | internal/discovery/broadcast.go:462-465 | reading the text of any JSON value gives the value and stops where the text stops |
| `NssScan.ExtractJsonAddrs` | libnss/nss_disco.c:184-268 | the searches and the loop return `Scan` of the text; success exactly when an address was found |
| `NssScan.ScanArray` | libnss/nss_disco.c:211-267 | the outer loop collects what the scan from the bracket on specifies, at most four |
| `NssScan.TakeTurn` | libnss/nss_disco.c:215-264 | one turn: stop, skip, or take a quoted text |
| `NssScan.TrimBlanks` | libnss/nss_disco.c:234-245 | computes `Trim` |
| `NssScan.TrimExactly` | libnss/nss_disco.c:234-245 | trimming takes only blanks and tabs off the two ends and leaves none there |
| `NssScan.ResponseShape` | internal/nss/protocol.go:49-63 | the encoded OK response is a head with request id and name followed by the address array |
| `NssScan.HeadMatch` | libnss/nss_disco.c:196-199 | for a safe request id the key matches in the head only at the end of the name |
| `NssScan.FirstBracket` | libnss/nss_disco.c:196-204 | so, whatever the name is, the searches for key and bracket end at the bracket of the address array |
| `NssScan.NoArray` | libnss/nss_disco.c:196-204 | a response without addresses yields none |
| `NssResponse.ScanInvertsEncoder` | libnss/nss_disco.c:184-268 | from every OK response with a safe request id the scanner returns the first four valid addresses in order, whatever the name is |
| `NssResponse.ReadsFirstFour` | libnss/nss_disco.c:184-268 | from a response whose addresses are blank-free and at most 63 characters the first four valid ones are read back as they are |
| `NssResponse.ScanIsSound` | libnss/nss_disco.c:184-268 | for every text, well-formed or not, at most four addresses are found, each valid and of at most 63 characters |
| `NssResponse.LongTextSkipped` | libnss/nss_disco.c:229-229 | empty text and text of 64 characters or more is never taken |
| `NssResponse.ScanCutExactly` | libnss/nss_disco.c:184-268 | cut anywhere, any text yields all its addresses if the end of the array is still there and none otherwise |
| `NssResponse.CutResponse` | libnss/nss_disco.c:103-135 | a response that does not fit the buffer or breaks off yields exactly the right addresses or none |
| `NssResponse.RequestIdCanMislead` | libnss/nss_disco.c:196-204 | with an unsafe request id and a host named "[]" no address is found, whatever the response carries |
| `NssResponse.SafeIdsExactly` | libnss/nss_disco.c:184-268 | a request id is read correctly in every response if and only if its quoted form does not end in the key |
| `NssScan.ClientIdsAreSafe` | libnss/nss_disco.c:417-419 | the ids the module sends are safe |
| `Hostent.FillHostent` | libnss/nss_disco.c:270-374 | succeeds exactly when name, count, parsed addresses and size allow it; a failure leaves the buffer alone; after a success following the pointers gives the name, no aliases and the parsed addresses in order |
| `Hostent.PackableExactly` | libnss/nss_disco.c:273-333 | packing succeeds exactly for names of 1 to 255 bytes, 1 to 4 candidates, at least one that parses, and a buffer of at least the bytes of the aligned layout, as a formula |
| `Hostent.ParsedConcat` | libnss/nss_disco.c:356-369 | the packed addresses of a list are those of its parts in order |
| `Hostent.ParsedOne` | libnss/nss_disco.c:295-300 | a candidate is packed if and only if it is present, not empty and parses for the family |
| `Hostent.Pack` | libnss/nss_disco.c:335-373 | the filling pass lays the entry out and makes it readable |
| `Hostent.CountForFamily` | libnss/nss_disco.c:292-301 | the counting pass finds as many addresses as the filling pass |
| `Hostent.FillAddresses` | libnss/nss_disco.c:352-369 | every parsed address is in place with its pointer, in order |
| `Hostent.PlaceName` | libnss/nss_disco.c:335-346 | cleared buffer, then the name with its terminator and null tables |
| `Hostent.LayoutSeparate` | libnss/nss_disco.c:315-329 | name, alias table, pointer table and address data do not overlap, are aligned, and end at the computed size |
| `Hostent.FilledStep` | libnss/nss_disco.c:356-369 | writing one address and its pointer disturbs no other part |
| `Hostent.DecodeWord` | libnss/nss_disco.c:366-366 | a stored pointer reads back as itself |
| `Hostent.PackedReadsBack` | libnss/nss_disco.c:270-374 | following the pointers of a packed buffer gives the name, no aliases and exactly the parsed addresses in order |
| `Calendar.ToUnixTime` | gps-broadcaster/arduino/gps_time_broadcaster.ino:209-227 | the loops compute the seconds since 1970, reduced to 32 bits, exactly when the `int` day counter of the given width does not overflow on the way |
| `Calendar.DayCountIsGregorian` | gps-broadcaster/arduino/gps_time_broadcaster.ino:209-231 | the day count equals the Gregorian closed form for every date from 1970 on |
| `Calendar.DatesIncrease` | gps-broadcaster/arduino/gps_time_broadcaster.ino:209-227 | later valid dates have larger day counts |
| `Calendar.SecondsIncrease` | gps-broadcaster/arduino/gps_time_broadcaster.ino:209-227 | later valid date-times give strictly larger results |
| `Calendar.SecondsDecompose` | gps-broadcaster/arduino/gps_time_broadcaster.ino:209-227 | the result takes apart again into the Gregorian day number, hour, minute and second |
| `Calendar.TwoDigitYearsFit` | gps-broadcaster/arduino/gps_time_broadcaster.ino:184-226 | no two-digit year overflows 32 bits |
| `Calendar.DayCountFits` | gps-broadcaster/arduino/gps_time_broadcaster.ino:211-224 | the 16-bit day counter holds a valid date's count if and only if the date is not after 2059-09-18 |
| `Calendar.ConvertsExactly` | gps-broadcaster/arduino/gps_time_broadcaster.ino:209-227 | on a 16-bit board the conversion of a valid date is defined if and only if the date is not after 2059-09-18, and then does not wrap |

## Left out

- float64 rounding of weights, offsets and conversions, and the saturation of durations at 292 years.
- Live `TimeSource` pointers: a snapshot of the store is taken atomically and sources are values; `ClockInfo` fields other than stratum and dispersion, the last sync time and error texts are not kept.
- `OutlierTime.ToleratedExactly`: speaks of the mean before it is rounded toward zero, since rounding can hide an excursion of less than a nanosecond; `OutlierTime.ToleratedSelects` is about the rounded time.
- `TimeRuns.StepTargetsNearTrueTime`: assumes that a monotonic clock advances with true time, that fresh usable reports have positive weights and that no two of them are 292 years apart.
- `SweepTransparency.SweepsDoNotShow`: assumes that the wall clock is not set back during the run, and ignores first-seen times and cached statuses.
- Records are values; callers that keep and mutate a returned record are not modelled. Concurrency inside the store is not, since one lock guards it.
- `RecordStore.Delete`, `ListAll`, the location store, the service detector, TXT, CNAME and PTR answers, the socket query dispatch, the command line and configuration loading would only add easy members.
- `DnsViews.HandleAQuery`: `net.ParseIP` is a given predicate.
- `SrvViews.SrvCarriesAnnouncedPort`: service names hold no dot, which a query label could not carry; ports are taken modulo 2^16 as the answer's field is.
- `RateLimiter.TokenBucketCap`: token arithmetic is unbounded.
- `ListenerGate.Listener.HandleDatagram`: one instant per datagram; HMAC-SHA256 is an uninterpreted function, and random nonces and key files are given.
- `Shutdown.StepKeepsInvariant`: the wait group is an atomic count of started readers, and a read returns at some time after the sockets are closed.
- `Json.ReadWritten`: covers the compact text the encoder writes: no white space, fractions, exponents, surrogate pairs or case-insensitive keys.
- `SignedPayload.CreateAnnouncement`: encoding does not fail.
- `SignedPayload.PayloadAgreement`: covers host announcements; the payload of time messages, which holds floating-point numbers, is not modelled.
- `NssResponse.ScanInvertsEncoder`: addresses are plain text without a closing bracket; text is characters, the terminating NUL is its end, and `strdup` succeeds.
- `NssResponse.CutResponse`: counts characters, not bytes, up to where the 8192-byte buffer ends; the characters the scanner looks for are single bytes.
- `extract_json_string`, `validate_hostname`, the socket exchange of the NSS module, the freeing of addresses and its status codes.
- `Hostent.FillHostent`: pointers are 64-bit and little-endian, alignment is arithmetic instead of a bit mask, NULL arguments are not passed, and `inet_pton` writes nothing when it fails.
- `Calendar.ToUnixTime`: years before 1970 and months above 13, for which the source reads outside its table, are not converted; what an overflowing counter holds is undefined in C and not modelled. NMEA parsing and the nanosecond product are not modelled.
