# MetroTrip in Dafny

A model of the parts of MetroTrip whose correctness spans several functions or a whole state machine, with proofs
about every input, every run or every interleaving. `dafny verify dfyconfig.toml` checks all of it.

- **Subway route planner** (`LineMap`, `ShortestPath`, `MapRoutes`, `Trains`, `Hops`, `Itineraries`, `FirstChoice`,
  `Stages`, `Route`, `RouteFacts`, `ShownSchedule`, `ChosenStations`, `RenamedStops`, `FastestRoute`). Six ordered
  station lists become a map of three lines, one of them a loop. A hop between two chosen stations is a direct train,
  the best of all one-transfer itineraries, or a shortest walk over the map; hops are stitched into one schedule.
  Timetables are a given total function of station, line, day and direction.
- **Reload of Oracle from MySQL** (`Relational`, `OracleSync`, `Clearing`, `SyncStages`, `SyncRun`, `StoredRows`,
  `Synchronisation`, `LeftOut`, `ExcludeLists`, `MetroTripSchema`). A relational state with restricting, cascading and
  nulling foreign keys, some of which must not be null; one transaction of statements, each of which may fail, over any
  choice of tables; commit, rollback, the row-count check, and what becomes of the tables that a run leaves out.
- **Plans** (`PlanItems`, `PlanTranslation`) and **reviews** (`ReviewText`, `ReviewParsing`, `ReviewRoundTrips`). What
  the page shows is written as a request, stored as a snapshot, listed and mapped back; review blocks are printed as
  text with image tokens and parsed.
- **Health check and failover** (`Failover`). Threads claim probes and record outcomes under a lock, in any order.
- **Recruitment** (`Recruitment`, `RecruitmentRuns`, `CommunityService`). Posts and applications, with the capacity as
  an aggregate; the service carries its history, which every method extends by one step of a run.
- **Clock texts** (`Clock`), the **stable sort** (`StableSort`) and the sizes of sets (`Sets`) that the others rest on.

Where the source changes state in place (the map builder, the searches, the Oracle connection, the health state, the
community and plan services) the model is a class or a method with loops, proved against a specification function or
predicate; the properties are then proved about that specification.

What the proofs found, each stated exactly in a lemma:

- The next train is picked by departure. It is the fastest one on all requests exactly where, on each line, an earliest
  departing train is never beaten by a later one (`Itineraries.NextTrainIsFastestExactly`; counterexample
  `Itineraries.OvertakingMisleads`).
- After a change of trains the last stop carries the map's name of the station, not the name the user chose. Deleting
  the inserted transfers gives back the chosen stations exactly if every station so reached was chosen under the map's
  name (`ChosenStations.ErasingTransfersGivesTheChoiceExactly`; example `RenamedStops.TransferRenames`). On every
  timetable and at every departure they are given back exactly if each two neighbouring stations share a raw line, have
  no transfer station or end under the map's name, or no schedule exists at all (`RenamedStops.GivesChoiceExactly`).
- A post update can leave a full post recruiting (`RecruitmentRuns.UpdateCanLeaveAFullPostRecruiting`).
- Excluding a table from a synchronisation, as `sync_exclude_tables` in `backend/app/config.py:56` permits, keeps its
  rows and values exactly if no row that can stand in it, with its NOT NULL references filled, can go or be nulled in a
  run that commits (`ExcludeLists.LeftOutSurvivesExactly`). For the repository's tables that means: every reloaded table
  that it cascades from, or is nulled by, is excluded too (`MetroTripSchema.KeepingListsExactly`). A run without
  `auth_tokens` deletes every user's tokens; a run without `line_view_logs`, which `docs/DB-FAILOVER.md:293` proposes to
  exclude one day, keeps the logs and forgets whose they were (`MetroTripSchema.ExcludedLoginTokensAreLost`,
  `MetroTripSchema.ExcludedViewLogsLoseTheirUsers`).
- A negative batch size skips the insertion loops; the row-count check then refuses every run in which something had to
  be inserted, and no other. A batch size of zero is an error as soon as a table is written
  (`Synchronisation.CountCheckIsExact`, `Synchronisation.RunSync`).
- Saving a shown plan again moves its end station exactly when the plan visits no station and did not end where it
  starts (`PlanTranslation.SecondSaveOnlyClosesGaps`; example `PlanTranslation.EndStationCanMove`).
- A place without a time is refused from the fifteenth item on (`PlanTranslation.DefaultTimeExactly`).
- A token start that a paragraph leaves open swallows the image behind it
  (`ReviewRoundTrips.OpenStartSwallowsImage`). A review comes back as its blocks, merged and trimmed, exactly if no
  token forms in a paragraph (`ReviewRoundTrips.ReviewRoundTripExactly`).
- A review with media but no image in its text is not printed as the same text again, nor is one whose paragraphs meet
  images with spaces; every other one is (`ReviewRoundTrips.ContentIsFixedExactly`). Without an image in the text the
  parsed blocks come back from a second round exactly if no two media share a url and no token start is left open for
  the tokens that are added (`ReviewRoundTrips.ParsedBlocksAreFinalExactly`).
- The two server formatters differ on most negative times (`Clock.FormattersAgreeExactly`), and clock texts sort as
  times exactly below one hundred hours (`Clock.TextOrderExactly`).

Where documentation and code disagree, the model follows the code: the health check takes a lock and starts with no
probe time, unlike the sketch in section 6 of `docs/DB-FAILOVER.md`; and `db/README.md:181` asks for a row lock that
`backend/app/services/community.py:487-504` does not take, so that recruitment requests are atomic is an assumption
of the recruitment results.

## Model

| member | source | states |
|---|---|---|
| Clock.ParseFormatClock | frontend/src/lib/transitTimetable.ts:77-90 | Parsing a formatted minute count gives it back modulo 1440, for every integer |
| Clock.ParseClockExactly | frontend/src/lib/transitTimetable.ts:77-85 | Exactly the texts of an optional sign, one to three digits of hours, two of minutes and perhaps seconds are read, each as its minute count, where the sign applies to the hours alone |
| Clock.ParseSecondsText | backend/scripts/sync_to_oracle.py:102-112 | A formatted time reads back as its whole minutes up to 999 hours, and not at all beyond |
| Clock.ToTimeStringExactly | backend/scripts/sync_to_oracle.py:102-112 | The text stored for a time is exactly HH:MM:SS of its whole seconds: hours of two digits or more, then two digits each of minutes and seconds, below zero with the sign on the hours alone |
| Clock.FormatTimetableTimeExactly | backend/app/services/transit.py:91-103 | The text answered for a time is exactly HH:MM:SS of its whole seconds, for a duration below zero after a minus sign and of its absolute value |
| Clock.FormatClockExactly | frontend/src/lib/transitTimetable.ts:87-90 | The clock shown for a minute is HH:MM of the minute of the day, two digits each |
| Clock.BothPrintSecondsText | backend/app/services/transit.py:91-103 | Both server formatters print the same text for every non-negative time of day or duration |
| Clock.FormattersAgreeExactly | backend/app/services/transit.py:91-103 | The formatters agree exactly on the non-negative times and the whole negative hours from minus ten down |
| Clock.PrintsAlikeExactly | backend/scripts/sync_to_oracle.py:102-112 | Two non-negative times print alike exactly if they agree in their whole seconds |
| Clock.TextOrderIsTimeOrder | backend/scripts/sync_to_oracle.py:102-112 | Below one hundred hours the texts sort as the times do |
| Clock.TextOrderExactly | backend/scripts/sync_to_oracle.py:102-112 | All times below a bound sort by their texts exactly if the bound is at most one hundred hours |
| StableSort.SortByFacts | frontend/src/lib/transitTimetable.ts:182-184 | The sort delivers the same elements in key order, and elements of equal key in their original order |
| StableSort.SortIsUnique | backend/app/repositories/plans.py:54-62 | A listing in strictly increasing key order is the only sorted order of its elements |
| LineMap.LineMapBuilder.AddStation | frontend/src/lib/subwayLineMap.ts:73-94 | After each row the stations are exactly those of the rows so far, each with its lines the image of its raw lines, no raw line twice, in order of first appearance |
| LineMap.LineMapBuilder.AddList | frontend/src/lib/subwayLineMap.ts:128-132 | Adding a list of rows keeps that, row by row, and adds nothing else |
| LineMap.LineMapBuilder.AddEdges | frontend/src/lib/subwayLineMap.ts:96-100 | A list adds one edge on its line between each two neighbours, and none for a list of one |
| LineMap.FetchSubwayLineMap | frontend/src/lib/subwayLineMap.ts:111-140 | The map holds exactly the listed stations with their lines, the neighbour edges of all lists and the closing edge of the loop |
| MapRoutes.EdgesStayOnTheirLine | frontend/src/lib/subwayLineMap.ts:128-137 | Both ends of every map edge are stations of the edge's line |
| MapRoutes.MapIsOfLists | frontend/src/lib/subwayLineMap.ts:23-30 | List by list: the map's edges are exactly those between neighbours of the first two lists on line 1, of the third on line 4 and of the last three on line 2, and the one that closes the fourth; a station's lines are exactly those of the lists that name it |
| MapRoutes.SharedLineConnects | frontend/src/lib/subwayLineMap.ts:73-140 | Two stations of one raw line are joined by map edges |
| MapRoutes.WalkOverTheClosingEdge | frontend/src/lib/subwayLineMap.ts:134-137 | The loop can be walked the other way round, over its closing edge |
| MapRoutes.LoopHalfRound | frontend/src/lib/subwayLineMap.ts:134-137 | A shortest path between two stations of the loop has at most half as many edges as the loop has stations |
| ShortestPath.BuildAdjacency | frontend/src/lib/transitTimetable.ts:307-315 | Each station's neighbours are exactly the edges that lead from it, in either direction |
| ShortestPath.Search | frontend/src/lib/transitTimetable.ts:317-330 | The breadth-first search reaches the goal exactly if it is connected, at its distance, and each station's edge back leads one step closer to the start |
| ShortestPath.WalkBack | frontend/src/lib/transitTimetable.ts:332-340 | Walking back never misses an edge and yields a path of exactly the distance found |
| ShortestPath.FindTopologicalPath | frontend/src/lib/transitTimetable.ts:305-341 | The result is a path with the fewest possible edges, and none exactly if the stations are not connected |
| Trains.LiftArrival | frontend/src/lib/transitTimetable.ts:172-175 | The loop lifts an arrival by whole days to the first one after the departure |
| Trains.CollectDestinations | frontend/src/lib/transitTimetable.ts:159-165 | The map from train numbers holds exactly the arrival minutes of the rows, in order |
| Trains.CollectMatches | frontend/src/lib/transitTimetable.ts:167-178 | The loops collect exactly the trains that the specification names, in order |
| Trains.MatchesAreRides | frontend/src/lib/transitTimetable.ts:158-178 | A collected train is exactly one of a number that departs at one station no earlier than asked, arrives at the other, lifted past midnight, and rides 1 to 180 minutes |
| Trains.RowTimes | frontend/src/lib/transitTimetable.ts:159-170 | A row's departure time counts for its departure and its arrival time for its arrival; the other one counts only where that is missing |
| Trains.NextTrainIsEarliest | frontend/src/lib/transitTimetable.ts:147-185 | A train is found exactly if one rides in either direction, and none that rides departs earlier, or arrives earlier at the same departure |
| Trains.FindNextTrainOnLine | frontend/src/lib/transitTimetable.ts:147-185 | The loops over both directions find that train |
| Hops.BestAttemptIsBest | frontend/src/lib/transitTimetable.ts:235-243 | Of the next trains on the shared raw lines the chosen one arrives first, and exists if any does |
| Itineraries.NextTrainIsFastestExactly | frontend/src/lib/transitTimetable.ts:182-184 | For every requested minute the picked train arrives first, exactly if on that line an earliest departing train is never beaten by a later one |
| Itineraries.NoOvertakingSuffices | frontend/src/lib/transitTimetable.ts:182-184 | That holds wherever no train is overtaken |
| Itineraries.OvertakingMisleads | frontend/src/lib/transitTimetable.ts:182-184 | A timetable on which the picked train arrives after one that also departs late enough |
| Itineraries.BestBetweenIsFastest | frontend/src/lib/transitTimetable.ts:235-250 | Over all shared lines the best attempt is a ride, exists if there is one, and without overtaking none arrives earlier |
| Itineraries.TransferIsItinerary | frontend/src/lib/transitTimetable.ts:226-295 | What is found over a transfer station is a two-train itinerary over it that leaves at least two minutes to change |
| Itineraries.TransferIsFastest | frontend/src/lib/transitTimetable.ts:226-295 | Without overtaking, no itinerary over that station arrives earlier |
| Itineraries.BestTransferIsBest | frontend/src/lib/transitTimetable.ts:422-435 | Of the hops over all candidate stations the first to arrive is chosen |
| Itineraries.TimedTransferIsFastest | frontend/src/lib/transitTimetable.ts:422-435 | Without overtaking, stations that share no raw line get a timed hop exactly if some two-train itinerary exists over any transfer station, line and direction; it is one, and none arrives earlier |
| FirstChoice.FirstDirectionFirst | frontend/src/lib/transitTimetable.ts:154-184 | Of trains that leave and arrive together one in the first direction is taken |
| FirstChoice.FirstLineFirst | frontend/src/lib/transitTimetable.ts:235-244 | Of the lines whose next trains arrive first the first one in the station's order is taken |
| FirstChoice.FirstStationFirst | frontend/src/lib/transitTimetable.ts:422-435 | Of the transfer stations over which the hops arrive first the one that the map lists first is taken |
| Stages.BuildPathOnlyHop | frontend/src/lib/transitTimetable.ts:344-369 | The loops yield the untimed legs of the path and its inserted stops |
| Stages.LineChangesAreMarked | frontend/src/lib/transitTimetable.ts:357-364 | The inserted stops are exactly the stations at which the line changes, in order |
| Stages.ResolveHop | frontend/src/lib/transitTimetable.ts:375-445 | The hop is the timed one if there is one, else a shortest path, and an error comes exactly if there is neither; its legs are rides of the timetable or edges of the map, and its stops are exactly where they end: after every train and at every change of line, with the map's name, the minute and the clock text of the leg's arrival |
| Stages.ResolvedHopIsHop | frontend/src/lib/transitTimetable.ts:375-445 | Whichever way it was found, a hop is an unbroken chain from one station to the other that starts no earlier than asked and changes trains with two minutes to spare |
| Stages.ResolvedHopShows | frontend/src/lib/transitTimetable.ts:226-295 | Every timed leg is a train of a raw line that both its stations have, with its line, number, direction, minutes and clock texts; the inserted stops are exactly the stations at which two legs meet |
| Stages.UntimedHopIsShortest | frontend/src/lib/transitTimetable.ts:305-369 | No chain of map edges between the two stations has fewer legs than a hop without trains |
| Route.CalculateSubwayRouteSchedule | frontend/src/lib/transitTimetable.ts:447-498 | The loop's schedule is that of the resolved hops, each starting when the one before it is over; the first stop's time is the first timed departure anywhere |
| RouteFacts.RouteIsUnbroken | frontend/src/lib/transitTimetable.ts:465-477 | All legs form one chain from the first to the last chosen station |
| ShownSchedule.ScheduleIsShown | frontend/src/lib/transitTimetable.ts:447-498 | Every leg of a schedule is a ride or a map edge; it starts at the first chosen station at the departure of the first timed leg, or at the requested minute without one; its other stops are exactly where legs end after every train and change of line, one for each leg of a fully timed schedule |
| ChosenStations.LastStopName | frontend/src/lib/transitTimetable.ts:284-294 | The last stop of a hop carries the map's name after a change of trains and the chosen name in every other case |
| ChosenStations.ErasedStopsAre | frontend/src/lib/transitTimetable.ts:465-477 | Without the inserted transfers the stops are the chosen stations, each once and in order, under the chosen id and line id and that name |
| ChosenStations.ErasingTransfersGivesTheChoiceExactly | frontend/src/lib/transitTimetable.ts:465-486 | For the returned schedule these are exactly the chosen stations if and only if every station reached by a change of trains was chosen under the map's name |
| ChosenStations.MapNamesAreKept | frontend/src/lib/transitTimetable.ts:465-486 | They are where all stations were chosen under the map's names |
| RenamedStops.GivesChoiceExactly | frontend/src/lib/transitTimetable.ts:422-498 | On a built map, a choice of different stations is given back by every schedule, whatever the timetables and the departure, exactly if each two neighbours share a raw line, have no transfer station or end under the map's name; or if some two are not joined, so that there is no schedule |
| RenamedStops.SomeAnswerRenames | frontend/src/lib/transitTimetable.ts:284-294 | Wherever a change of trains can rename a station, a timetable with just that change does |
| RenamedStops.TransferRenames | frontend/src/lib/transitTimetable.ts:284-294 | A map, a timetable and a choice for which every schedule shows another name |
| FastestRoute.TimedHopIsFastest | frontend/src/lib/transitTimetable.ts:375-435 | If there is a way by train, direct on a shared line or with one change where none is shared, the planner finds a timed hop, and without overtaking it arrives no later |
| FastestRoute.RouteIsFastest | frontend/src/lib/transitTimetable.ts:465-477 | Without overtaking, whenever a chain of such ways over the chosen stations exists, all hops are timed and reach every station no later than that chain |
| FastestRoute.ScheduleIsFastest | frontend/src/lib/transitTimetable.ts:479-497 | So the schedule is then fully timed, and its last leg arrives no later than any such chain |
| RouteFacts.RouteIsInTime | frontend/src/lib/transitTimetable.ts:447-498 | No timed leg departs before the requested time or before an earlier leg arrives |
| RouteFacts.FullyTimedMeansAllLegsTimed | frontend/src/lib/transitTimetable.ts:479-497 | All hops are timed exactly if all legs are |
| RouteFacts.DurationIsRidesAndWaits | frontend/src/lib/transitTimetable.ts:479-497 | A schedule has a duration exactly if all its legs are timed, and then it is the sum of all rides and waits and at least one minute a leg |
| RouteFacts.LegsAreServed | frontend/src/lib/transitTimetable.ts:221-223 | The line of every leg of every hop serves both ends of the leg |
| RouteFacts.NeighbourhoodsConnect | frontend/src/lib/transitTimetable.ts:199-210 | Stations that share a raw line or have a transfer candidate are joined by map edges |
| RouteFacts.NeverWithoutARoute | frontend/src/lib/transitTimetable.ts:437-444 | Between two different such stations of a built map a hop always resolves |
| RouteFacts.LoopHopIsHalfRound | frontend/src/lib/transitTimetable.ts:437-444 | An untimed hop between two loop stations has at most half as many legs as the loop has stations |
| Failover.HealthCheck.Claim | backend/app/db_failover.py:55-59 | One step of the interleaving: a probe of this thread starts, is noted and in flight, exactly if none has started yet or the last start is at least a cache time ago; otherwise the answer is the verdict of the outcomes recorded so far |
| Failover.HealthCheck.Record | backend/app/db_failover.py:65-76 | One step of the interleaving: the outcome joins the log, the probe is no longer in flight, and the answer is the verdict of the log; the counters stay its trailing runs |
| Failover.CallProbesExactly | backend/app/db_failover.py:55-59 | Under every interleaving a thread that does not probe may call at any later time, and its call starts a probe exactly if none has started yet or the last start is at least a cache time ago; nothing else changes |
| Failover.FinishRecordsExactly | backend/app/db_failover.py:60-76 | A thread that probes may record at any later time, and records the start that it claimed |
| Failover.CountersAreTrailingRuns | backend/app/db_failover.py:35-116 | Under every interleaving the counters are the lengths of the trailing runs of recorded failures and successes, never both positive, and the verdict is that of the log; writes are refused, and reads leave the primary, exactly if it is unhealthy |
| Failover.VerdictIsLastDecision | backend/app/db_failover.py:65-76 | The verdict of a log is the outcome of the last run to reach its threshold, and healthy if none has |
| Failover.ProbesInWindow | backend/app/db_failover.py:55-59 | Under every interleaving a window of length T holds at most floor(T / cache time) + 1 probe starts |
| Failover.AtMostOneInFlight | backend/app/db_failover.py:55-76 | If each probe is recorded before a cache time is over, no two are ever in flight |
| Failover.TurningTakesTime | backend/app/db_failover.py:65-76 | When the verdict turns, either way, the log ends in exactly threshold outcomes of the new kind, one at least, and at least threshold - 1 cache times have passed since the earliest start among them |
| Failover.RoundsTurnExactly | backend/app/db_failover.py:55-76 | Whatever happened before, calls that each come a cache time after the last start and are recorded with one outcome turn the verdict to it exactly if they complete as many in a row as its threshold says |
| Failover.TurningTimeIsMet | backend/app/db_failover.py:55-76 | That takes no more than threshold - 1 cache times: as many failures as are needed, one each cache time, give the primary up with the last of them and not before |
| CommunityService.CommunityService.FindParticipant | backend/app/repositories/community.py:93-100 | The one application of the user to the post is found, or there is none |
| CommunityService.CommunityService.Create | backend/app/services/community.py:247-270 | One step of a run: the post is stored under a fresh id exactly as requested, recruiting and with nobody accepted, exactly if title, content and capacity are in range and the plan exists; which check refuses it is exact, and an error changes nothing |
| CommunityService.CommunityService.Update | backend/app/services/community.py:307-340 | One step of a run: exactly the given fields of the owner's post are replaced, or cleared where null is allowed; it is refused, by each check exactly, for values out of range, a missing or foreign post, an unknown plan, a capacity below the number accepted and a null that is not allowed |
| CommunityService.CommunityService.ApplyToPost | backend/app/services/community.py:359-407 | One step of a run: the user's one row for the post is a fresh application and nothing else changes, exactly if the post is there, is another's, recruits, has its deadline not behind it and a free place, and the user has no applied or accepted row; each refusal has exactly its reason, in the order of the checks |
| CommunityService.CommunityService.CancelMyApplication | backend/app/services/community.py:410-443 | One step of a run: only the status of the user's row changes, exactly if it was applied or accepted and its cancellation is what was asked for; a place is freed exactly if it was accepted; each refusal has exactly its reason |
| CommunityService.CommunityService.DecideParticipant | backend/app/services/community.py:472-515 | One step of a run: the owner's decision on an applied row of the post is stored with its time, exactly if it is an acceptance with a free place or a rejection; an acceptance takes one place and closes the post with the last, a rejection takes none; each refusal has exactly its reason |
| CommunityService.CommunityService.Delete | backend/app/services/community.py:343-348 | One step of a run: the owner's post goes with exactly its applications; a missing and a foreign post are refused |
| RecruitmentRuns.RunsStayValid | backend/app/services/community.py:307-515 | In every state of every run no post has more accepted than its capacity, each post and user have one row, owners do not take part, and a response time is set exactly as the status demands |
| RecruitmentRuns.RequestsMakeMoves | backend/app/services/community.py:359-515 | A request moves a row only along the allowed changes of status, never to another post or user, and a new row is an application under a fresh id |
| RecruitmentRuns.AcceptedOnlyThroughApplied | backend/app/services/community.py:385-401 | A rejected or canceled application that is accepted later was applied again in between |
| RecruitmentRuns.FullPostsStayClosed | backend/app/services/community.py:496-504 | In a run without updates every full post is closed in every state |
| RecruitmentRuns.ClosedPostsStayClosed | backend/app/services/community.py:359-515 | A closed post stays closed in every later state in which it exists, as long as no post is updated |
| RecruitmentRuns.UpdateKeepsFullPostsClosedExactly | backend/app/services/community.py:323-333 | An update keeps full posts closed exactly if it leaves its post closed or with a free place |
| RecruitmentRuns.UpdateCanLeaveAFullPostRecruiting | backend/app/services/community.py:323-333 | Of every recruiting post with someone accepted an update can lower the capacity so that it is full and still recruiting |
| Relational.DoomedIsClosed | backend/app/models/transit.py:120-137 | The rows that a deletion takes along are exactly those that a cascading key ties to a deleted row |
| Relational.DeleteKeepsForeignKeys | backend/app/models/transit.py:120-137 | A deletion that no restricting reference blocks keeps all foreign keys valid, whatever it cascades to or nulls |
| Relational.DeletionsAddUp | backend/app/models/transit.py:120-137 | Two deletions in a row, with all they cascade to and null, are one deletion of both, and the second is blocked exactly if the joint one is |
| OracleSync.TransformRow | backend/scripts/sync_to_oracle.py:115-119 | The loop stores the times of `train_timetables.arrival_time`, `train_timetables.departure_time` and `travel_plan_items.visit_time` as their texts HH:MM:SS, and every other value, nulls too, as it is |
| OracleSync.OracleConnection.Delete | backend/scripts/sync_to_oracle.py:203-204 | A statement that fails changes nothing; one that succeeds deletes, cascades and nulls, and keeps the foreign keys |
| OracleSync.OracleConnection.Insert | backend/scripts/sync_to_oracle.py:217-219 | As above, for the insertion of a batch |
| OracleSync.OracleConnection.Update | backend/scripts/sync_to_oracle.py:175-178 | As above, for an update by key |
| OracleSync.PutKeepsForeignKeys | backend/scripts/sync_to_oracle.py:171-178 | Rows whose references exist can be put without breaking any foreign key |
| SyncRun.InsertInBatches | backend/scripts/sync_to_oracle.py:217-219 | Whatever the positive batch size, the batches add up to all rows, and succeed exactly if no statement fails and all references hold; zero is an error |
| SyncRun.UpsertContent | backend/scripts/sync_to_oracle.py:151-183 | After inserting the missing rows and updating the known ones the table holds every source row as in the source, and besides only what it held before |
| SyncRun.UpsertTable | backend/scripts/sync_to_oracle.py:151-183 | The merged table is the copy of the source, and references to removed rows are nulled; it fails exactly on a fault, a zero batch size or a restricting reference |
| SyncRun.LoadTable | backend/scripts/sync_to_oracle.py:212-220 | The reloaded table is the copy of the source and other tables stay; it fails exactly on a fault, a zero batch size or a reference into a table left out that has no row there |
| SyncRun.CopyNames | backend/scripts/sync_to_oracle.py:115-119 | A copy has the keys of the source rows and as many rows |
| StoredRows.CommittedRowsHold | backend/scripts/sync_to_oracle.py:102-119 | After a committed run every synchronised table holds the rows of the source, each once under its key and with those texts, and nothing else |
| SyncRun.CopiedRowHolds | backend/scripts/sync_to_oracle.py:205-220 | With its synchronised parents copied, a source row finds its references in Oracle exactly if those into tables left out are there |
| Clearing.ClearNextTable | backend/scripts/sync_to_oracle.py:203-204 | Emptying one more table leaves exactly what one deletion of all tables so far would leave, and is blocked exactly by a row that is left and restricts a lost one |
| Clearing.LostExactly | backend/scripts/sync_to_oracle.py:203-204 | The rows lost in clearing are exactly those from which a chain of cascading keys, however long, leads to a reloaded table |
| Clearing.LeftExactly | backend/scripts/sync_to_oracle.py:203-204 | A row is left after the clearing exactly if no such chain leads from it |
| Clearing.NulledExactly | backend/scripts/sync_to_oracle.py:203-204 | A value that is left is nulled exactly if it is a SET NULL reference to a lost row |
| Clearing.BlockedExactly | backend/scripts/sync_to_oracle.py:203-204 | The clearing is blocked exactly if, at some reloaded table, a row that is left by then restricts a lost one |
| Relational.NulledTwice | backend/app/models/transit.py:134-137 | Nulling references to some rows and then to others nulls the references to either |
| SyncStages.MergeBlockedExactly | backend/scripts/sync_to_oracle.py:180-181 | Deleting the rows the source no longer has is blocked exactly by a restricting reference from a row left out that the clearing left |
| SyncStages.MergeCompletes | backend/scripts/sync_to_oracle.py:180-181 | Where it is not blocked it completes the merge and nulls references to the removed rows, nothing else |
| Synchronisation.ClearTables | backend/scripts/sync_to_oracle.py:203-204 | For any choice of tables, the loop succeeds exactly if no statement fails and nothing blocks the clearing, and then Oracle is what one deletion of all reloaded tables would leave |
| Synchronisation.MergeTables | backend/scripts/sync_to_oracle.py:206-210 | All merged tables are copied, exactly if no statement fails and no restricting reference stands against it |
| Synchronisation.LoadTables | backend/scripts/sync_to_oracle.py:212-220 | All reloaded tables are copied, parents first, exactly if no statement fails and what they refer to in tables left out is there |
| Synchronisation.CheckCounts | backend/scripts/sync_to_oracle.py:222-228 | The check compares the row counts of all synchronised tables with those that were read |
| Synchronisation.CountCheckIsExact | backend/scripts/sync_to_oracle.py:222-228 | For a source with unique keys the check fires exactly for a negative batch size with something to insert; where it passes, everything was copied |
| Synchronisation.RunSync | backend/scripts/sync_to_oracle.py:186-234 | For any choice of tables, the run commits exactly if no statement fails, no row left out restricts the clearing or a merge, all references into tables left out hold and the batch size lets everything be inserted; then every synchronised table holds exactly the rows of the source, with times as their texts HH:MM:SS; else Oracle is as before |
| LeftOut.SecondRunChangesNothing | backend/scripts/sync_to_oracle.py:186-234 | For any choice of tables, a second run from the same source may commit too and changes nothing |
| LeftOut.LeftOutRowExactly | backend/scripts/sync_to_oracle.py:80-85 | After a committed run a row left out is there exactly if no chain of cascading keys leads from it to a reloaded table, and of its values exactly the SET NULL references to lost and to removed rows are nulled |
| ExcludeLists.RowsStandWhereTheyCan | backend/scripts/sync_to_oracle.py:203-204 | In a state whose clearing nothing blocks, every row goes when a table is emptied at which a row of its table can go with all its NOT NULL references filled, or never |
| ExcludeLists.LeftOutSurvivesExactly | backend/scripts/sync_to_oracle.py:122-129 | A choice of tables keeps every row and value it leaves out, but for references to removed rows of the merged tables, on every consistent state, exactly if no row that can stand in a table left out can go or be nulled |
| ExcludeLists.OnlyRestrictingKeeps | backend/scripts/sync_to_oracle.py:80-85 | It does where tables left out only restrict reloaded ones, and only there if NOT NULL columns restrict merged tables alone |
| ExcludeLists.RestrictionCanGuard | backend/scripts/sync_to_oracle.py:203-204 | Two tables where a restricting NOT NULL column guards the table left out, so that nothing is lost although it is nulled by a reloaded one |
| ExcludeLists.ExcludeListKeepsExactly | backend/scripts/sync_to_oracle.py:122-129 | In terms of the exclude list: it does if the list names, with each table left out, every reloaded table that this one cascades from or is nulled by, and only then if NOT NULL columns restrict merged tables alone |
| LeftOut.SeparatedRunsAreFree | backend/scripts/sync_to_oracle.py:80-85 | Where tables left out refer to merged ones alone, only failing statements, a restricted merge and the batch size stand against a commit |
| Synchronisation.SyncTablesAreInOrder | backend/scripts/sync_to_oracle.py:122-129 | The tables chosen by name are in foreign-key order and exactly those not excluded |
| MetroTripSchema.MetroTripIsSchema | backend/app/models/plans.py:31-79 | In the repository's tables parents come first, only columns that may be null are nulled, merged tables stand alone, and NOT NULL columns restrict merged tables alone |
| MetroTripSchema.MetroTripIsSeparated | backend/scripts/sync_to_oracle.py:122-129 | With nothing excluded but, by default, the timetables, tables left out refer to merged ones alone |
| MetroTripSchema.KeepingListsExactly | backend/app/config.py:56 | The exclude lists that keep what they exclude, on every consistent state of the repository's tables with their NOT NULL columns filled, named one by one |
| MetroTripSchema.ExcludedLoginTokensAreLost | backend/app/config.py:56 | A committed run without the login tokens keeps exactly those that belong to no user |
| MetroTripSchema.ExcludedViewLogsLoseTheirUsers | docs/DB-FAILOVER.md:293 | A committed run without the view logs keeps them all and nulls the user of each |
| PlanItems.AcceptedTimeIsNormal | backend/app/schemas/plans.py:18 | Of the two formats modelled, a time in the form in which it is answered is accepted again unchanged |
| PlanItems.AcceptedTimeExactly | backend/app/schemas/plans.py:18 | Exactly the times from 00:00:00 to 23:59:59 are accepted, with or without seconds, and are answered with seconds |
| PlanItems.ValidExactly | backend/app/schemas/plans.py:11-28 | An item is valid exactly if it names a station and no place, or a place, and its position, time and note are in range |
| PlanItems.RequireReferences | backend/app/services/plans.py:60-109 | Refused, in this order, exactly for a station of the plan or an item that does not exist, for a place that does not, and for a place item whose station is not one of its place |
| PlanItems.PlanStore.WriteItems | backend/app/services/plans.py:223-243 | New items get the next ids in request order, kept ones are overwritten, all others stay |
| PlanItems.PlanStore.SyncPlanItems | backend/app/services/plans.py:190-246 | The plan's items become exactly the requested snapshot; a duplicate or a foreign id is refused, in that order, and changes nothing |
| PlanItems.PlanStore.ListPlanItems | backend/app/repositories/plans.py:46-65 | Every item of the plan once, strictly ordered by position and id |
| PlanItems.PlanStore.CreatePlan | backend/app/services/plans.py:272-303 | A plan under a fresh id with exactly the requested items, or the first missing reference and no change |
| PlanItems.PlanStore.UpdatePlan | backend/app/services/plans.py:313-346 | The given fields are set, the others kept, the items become the snapshot and the plan is touched, all together exactly if a change is asked for; an error, even after the fields were assigned, changes nothing |
| PlanItems.UpdateErrorExactly | backend/app/services/plans.py:313-346 | Each refusal of an update has exactly its reason, in the order of the checks: values out of range, a missing or foreign plan, references after the update, a repeated id, an id of another plan's item |
| PlanItems.SnapshotShows | backend/app/services/plans.py:223-243 | Each requested item is stored with its references and note, its position or its place in the request, and its time with seconds, under its own id or the next new one |
| PlanItems.SnapshotIds | backend/app/services/plans.py:196-246 | Kept ids survive, omitted ones are gone, new ones are fresh, and no item of another plan is touched |
| PlanItems.StoredIdsDiffer | backend/app/services/plans.py:223-243 | No two requested items end up under one id |
| PlanItems.SameElementsSameOrder | backend/app/repositories/plans.py:54-62 | There is only one listing of a set of items |
| PlanItems.ListingIsRequestExactly | backend/app/repositories/plans.py:46-65 | After an update the listing is the request in its order exactly if its positions, with ids between equal ones, increase |
| PlanItems.ListingKeepsRequestOrder | backend/app/services/plans.py:223-224 | With positions left out, or given and increasing, it is |
| PlanTranslation.LegacyPlanWrite | frontend/src/lib/legacyApiAdapter.ts:405-432 | Exactly the station and place visits are written, in order, each place with the last station visited before it, else the start; the plan starts at the first station visited and ends at the last, else at those of the first and last place, with their fall-backs |
| PlanTranslation.StationAfterIsNearest | frontend/src/lib/legacyApiAdapter.ts:411-413 | The carried station is the last one visited so far, else the start |
| PlanTranslation.WrittenIs | frontend/src/lib/legacyApiAdapter.ts:405-432 | What the specified write is, item by item: first and last visits, stations of places, ids, positions, notes, and the default hour of a place without a time |
| PlanTranslation.PlanWithoutItems | frontend/src/lib/legacyMappers.ts:336-360 | Saving the page of a plan without items keeps its stations, except an end station 0, and makes them its items |
| PlanTranslation.DefaultTimeExactly | frontend/src/lib/legacyApiAdapter.ts:422 | A place's default time is a time of day exactly for the first fourteen items |
| PlanTranslation.WrittenIsValidExactly | frontend/src/lib/legacyApiAdapter.ts:412-425 | What is written is well formed exactly if notes are short, given times are times of day, and no place from the fifteenth item on lacks one |
| PlanTranslation.SavedPlanIsShown | frontend/src/lib/legacyMappers.ts:292-306 | Saving and showing a plan keeps every station and place in order with its identity, note and given time, and gives each place the nearest preceding station |
| PlanTranslation.SecondSaveOnlyClosesGaps | frontend/src/lib/legacyApiAdapter.ts:405-432 | Saving it again changes only positions, to close gaps; the end station stays exactly if the plan visits a station or ended where it starts |
| PlanTranslation.FirstSaveIsFinalExactly | frontend/src/lib/legacyApiAdapter.ts:412-421 | The second save changes no item at all exactly if no unwritten item stood before a written one |
| PlanTranslation.SecondSaveIsAccepted | backend/app/services/plans.py:313-346 | What was saved and shown passes every check when its owner saves it again |
| PlanTranslation.EndStationCanMove | frontend/src/lib/legacyApiAdapter.ts:409-410 | Two places of different stations whose plan is accepted and stored, and ends elsewhere after the second save |
| ReviewText.ReviewMedia | frontend/src/lib/legacyApiAdapter.ts:573-577 | The loop sends the urls of the claimed ids, each where it is first met, in order, the cover last |
| ReviewText.SentMediaExactly | frontend/src/lib/legacyApiAdapter.ts:573-577 | The media sent are exactly those of the claimed images and cover, none twice |
| ReviewText.ContentGrows | frontend/src/lib/legacyApiAdapter.ts:563-572 | The printed text, block by block: a trimmed paragraph, or the token of a claimed image, is added after an empty line; other blocks add nothing |
| ReviewParsing.FirstTokenFound | frontend/src/lib/legacyMappers.ts:212-215 | Before a printed image the first match is the first token that forms in the text, closed there or by the image; else it is the image's, with exactly its url |
| ReviewParsing.TrimKeepsPieces | frontend/src/lib/legacyApiAdapter.ts:572 | Trimming the whole text changes nothing of what is parsed |
| ReviewParsing.ParsePrintedExactly | frontend/src/lib/legacyMappers.ts:212-223 | Parsing printed pieces gives them back, adjacent paragraphs merged, each trimmed and the blank ones dropped, exactly if no token forms in a merged paragraph; else less text is shown |
| ReviewText.MapLegacyReview | frontend/src/lib/legacyMappers.ts:210-226 | The loop with its moving cursor yields the blocks that the text's grammar defines, and all media where there is no image |
| ReviewRoundTrips.ReviewRoundTripExactly | frontend/src/lib/legacyApiAdapter.ts:563-572 | Parsing a printed review gives its blocks, whatever their texts, exactly if no token forms in a paragraph: empty ones dropped, adjacent paragraphs merged and trimmed, images as the stored media of their urls, and all media if none was shown |
| ReviewRoundTrips.PlainParagraphsAreSafe | frontend/src/lib/legacyMappers.ts:210 | No token forms, and none is left open, where no paragraph holds the start of one |
| ReviewRoundTrips.OpenStartSwallowsImage | frontend/src/lib/legacyMappers.ts:210-215 | A review whose open token start swallows the image behind it |
| ReviewRoundTrips.SentIsListed | frontend/src/lib/legacyApiAdapter.ts:573-577 | Storing the media that were sent is enough for every image to be found again |
| ReviewRoundTrips.ContentIsFixedExactly | frontend/src/lib/legacyMappers.ts:210-226 | Printing the parsed blocks gives the same text exactly if it showed an image or there are no media, and spaces stand at the ends of paragraphs only where the whole text ends |
| ReviewRoundTrips.ParsedBlocksAreFinalExactly | frontend/src/lib/legacyMappers.ts:210-226 | Parsed blocks are parsed again from what they are printed as, exactly if the text showed an image, or there are no media, or no two media share a url and no token start is left open |

## Left out

- HTTP, routers, pages, the map drawing, local storage, caches and promise scheduling: timetables and station lists are
  given inputs, and the three-line map is built once.
- Latitude, longitude, nearest-station search, labels and colours of lines.
- ShortestPath.FindTopologicalPath: which of several shortest paths is taken, by the order of the edges, is not stated;
  the source asks for the fewest stops alone.
- Station records shared between the map and a search: the builder reassigns map values instead of editing records.
- Oracle and MySQL internals: one consistent MySQL snapshot per run is assumed; unique constraints on non-key columns,
  the connection, the length of columns and the empty-string check count only as statements that may fail.
- Writing the sync state file, logging, scheduling of runs, and `verify_row_counts`.
- Synchronisation.RunSync: it asks that merged tables refer to nothing and that nothing cascades from them
  (`MergesStandAlone`), which is a fact of the repository's tables (`MetroTripSchema.MetroTripIsSchema`) and not of the
  choice of tables; its `KeyedSource` follows from `IsConsistent` by `SyncRun.ConsistentSourceIsKeyed`.
- CHECK constraints, unique columns and NOT NULL columns that refer to nothing are not part of a state; NOT NULL foreign
  keys are.
- The probe timeout, the thread pool and the sessions that are opened: a probe is an event that starts and, later or
  never, records an outcome.
- Concurrent recruitment requests: requests are atomic, as stated above.
- Authentication, view counts, pagination, nicknames, user deletion, email and media upload: simple lookups or flags.
- PlanItems.AcceptedTimeIsNormal: of the time formats that the API reads, only HH:MM and HH:MM:SS are modelled as
  accepted, because the others come from the validation library.
- Plan titles are checked for their length; descriptions, dates and status of a plan, which live in the browser, the
  branch that merges them with an unordered answer, share links and plan deletion are not part of the model.
- Stations deleted while plan items refer to them: references are fixed while a plan store is in use.
- Reading of ids from texts (`Number`, `numeric`): an id is the integer it reads as, or absent.
- Media types, alternative texts and the normalisation of media urls: urls are taken as already normalised.
- Text outside Unicode's basic plane counts one character each instead of two code units; no modelled step depends
  on it.
- Notices, favorites, place and review storage, field-by-field mappers: each settled by reading one function.
