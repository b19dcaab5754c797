# Delivery Central: a verified model of its seed factory, calendars, public ids, logins and trail

Delivery Central is a workforce-planning application. This project models five of its parts in
Dafny and proves what they guarantee, on every input and over whole runs:

- **The IT-company seed** (`prisma/seeds/it-company-profile.ts`). The greedy staffing of active
  projects under a 100% cap per person, the deliberate over-allocation after it, the fill history
  of every position, the re-dating of bench history through shared row objects, the candidate
  slates, the RAG snapshot loops and the business-day clock. Projects, pools, people, `NOW` and the
  random draws are arbitrary; only their documented ranges are assumed.
- **The calendar.** The proleptic Gregorian calendar of ECMA-262 5.1, sections 15.9.1.2 to
  15.9.1.13, as day numbers, with the `Date` setters the program uses; and the `YYYY-MM-DD` strings
  (section 15.9.1.15 there, `full-date` in section 5.6 of RFC 3339) that the workload timeline
  (`frontend/src/lib/workload-helpers.ts`) compares as strings.
- **The public-id layer** (`src/infrastructure/public-id/`). Identifiers, the recursive response
  rewriter with its UUID check (the string form of section 3 of RFC 4122), and insert with retry.
- **Accounts and sessions** (`src/modules/auth/`). The login lockout and refresh-token rotation (the
  scheme of section 10.4 of RFC 6749), one service call a step.
- **The breadcrumb trail** (`frontend/src/app/drilldown-context.tsx`).

State that the program updates in place is a class here: `Factory`, `SnapshotTable`, `HistoryRow`,
`Interceptor`, `Middleware` with its `RowArgs`, `AuthService`, `TokenService`, `DrilldownProvider`.
Each of their methods is proved equal to a function of the old state, and the lemmas are about those
functions, so they hold of the methods. The lemmas named `...Tells` say what a function leaves behind
without reference to how it is computed.

## What the proofs found

- The "monthly" history cursor never moves by a month: one month on and back to Monday is always
  exactly 28 days (`SeedClock.MonthThenMonday`).
- The trail's cap of eight is not a cap on `navigateTo`: the trail can reach any length
  (`DrilldownTrail.NavigationIsUnbounded`); that push is the only step that can outgrow it
  (`DrilldownTrail.OnlyNavigateToOutgrowsTheCap`).
- Strict mode does not check the companion strings it puts in place. The rewritten body is free of
  UUIDs exactly when no leak was met and no such companion is a UUID
  (`PublicIdSerializer.CleanIffNothingLeaks`; `PublicIdSerializer.StrictModeMayMiss` gives a body
  that passes with one); a second pass would close the gap.
- A failed refresh changes nothing, except when its old token is redeemable, the account exists and
  the new token's hash is already stored: the old token is then revoked and no new one exists
  (`RefreshTokens.RefreshTradesOneForOne`; `RefreshTokens.FailedRefreshMayRevoke` gives such a call).
- An expired lock does not clear the failure counter, so each later failure locks again. This gives
  the exact guessing rate (`Lockout.LockoutBoundsGuessing`, `Lockout.BoundIsReached`).
- A week that ends after 9999-12-31 overlaps no assignment, in that year or any later one, because
  the five-digit year prints with a leading `+`; for every week within years 0 to 9999 the
  `9999-12-31` sentinel does mean "no end" (`WorkloadHelpers.OverlapIsByDay`, and
  `WorkloadHelpers.NoEndMayEnd` for the week of 9999-12-27).
- Adding days twice is adding their sum exactly when the stop between is a midnight in years 0 to 9999
  or on the first of a month: outside those years `addDays` prints no date, and it never prints a
  time of day (`WorkloadHelpers.AddDaysAdds`; `WorkloadHelpers.AddDaysMayLoseADay` gives a date and
  two steps that lose a day).
- The spillover falls back to project number 3. So the phase throws exactly when one of the people to
  over-allocate has no free project and there is no number 3, and repeats a person and project
  exactly when one has none and there is one (`Staffing.ExactlyTheExportedExceedTheCap`;
  `StaffingExamples` has a dataset for either). Five eligible projects rule both out.
- A fill history replays exactly when the assignment was approved (unless still proposed) and has an
  end date if released; a closed project must last 49 days for its rows to be in time order
  (`FillHistory.ReplayReachesTheFillStatus`, `FillHistory.ShortProjectsMayNot`).
- The comment at `src/infrastructure/public-id/public-id.service.ts:22` gives the identifier alphabet 54
  symbols; the code at line 25 has 56, and so has the model.

## Model

| member | source | states |
|---|---|---|
| RingProbe.RingCovers | prisma/seeds/it-company-profile.ts:887-888 | one turn of the modular probe visits every index of the pool |
| RingProbe.RingFindIsComplete | prisma/seeds/it-company-profile.ts:887-892 | a probing pass takes the first acceptable member in ring order and fails exactly when the pool has none |
| Staffing.ChoiceIsMaximal | prisma/seeds/it-company-profile.ts:881-902 | a slot is given whole exactly when some pool member off the team fits it, downsized to that member's whole remaining capacity only otherwise, and left unstaffed exactly when every pool member off the team has less than 25% free |
| Staffing.ChoiceFollowsTheRing | prisma/seeds/it-company-profile.ts:885-901 | a slot given whole goes to the first place of the pool, turned to start at the seed, that is off the team and fits it; a downsized one to the first with 25% free |
| Staffing.RecordKeeps | prisma/seeds/it-company-profile.ts:916-932 | recording someone new on a project keeps loads, teams, ids and pairs consistent and changes that person's load alone |
| Staffing.StaffingKeepsTheCap | prisma/seeds/it-company-profile.ts:873-935 | after any number of projects each map entry is the sum of that person's rows and at most 100, teams are the people on record, no person is twice on a project |
| Staffing.UnstaffedStaysUnstaffable | prisma/seeds/it-company-profile.ts:893-902 | a slot left unstaffed could not be filled at the end of the run either |
| StaffingRows.SlotTells | prisma/seeds/it-company-profile.ts:880-933 | slot i of project k adds a row exactly when someone can fill it and it starts by now; the row names who is next in the ring from 100 k + i, their share, the status of just that slot, and its four dates in days |
| StaffingRows.EverySlotHasItsTurn | prisma/seeds/it-company-profile.ts:873-882 | a project has 8, 10, 12 or 14 slots, each filled from the tables the one before left, and their rows stay |
| StaffingRows.StaffedInRowOrder | prisma/seeds/it-company-profile.ts:871-932 | the allocation map lists everyone with a row, in the order of their first rows |
| Staffing.PickOverPicks | prisma/seeds/it-company-profile.ts:943-949 | the first two people in map order at 80% or more are picked, and fewer only when fewer qualify |
| Staffing.SomeProjectIsFree | prisma/seeds/it-company-profile.ts:951-954 | pigeonhole: a person within the cap is off at least one of five eligible projects |
| Staffing.SpillRepeatsAPairIffNoneIsFree | prisma/seeds/it-company-profile.ts:950-972 | one spillover, for any dataset, when no project but number 8 is free of the person: it throws with at most three active projects and repeats a person and project otherwise, and in no other case does it do either |
| Staffing.SpillOnceAgrees | prisma/seeds/it-company-profile.ts:950-972 | a spillover that does not throw adds exactly 50% to its person alone and keeps loads, teams and ids in agreement, a repeated pair included |
| Staffing.SpillPhase | prisma/seeds/it-company-profile.ts:950-972 | all spillovers together, told from the tables before the first: they throw exactly when a picked person has no free project and there are at most three, and else repeat a pair exactly when a picked person has none |
| StaffingRows.SpillPhaseTells | prisma/seeds/it-company-profile.ts:950-972 | the phase appends one row for each picked person: half their time, on their first free project but number 8 or else on number 3, from two months ago and then one |
| StaffingExamples.SpilloverMayThrow | prisma/seeds/it-company-profile.ts:943-972 | a dataset of one project on which the factory throws |
| StaffingExamples.SpilloverMayRepeatAPair | prisma/seeds/it-company-profile.ts:943-972 | a dataset of four projects on which it puts a person on one project twice |
| Staffing.ExactlyTheExportedExceedTheCap | prisma/seeds/it-company-profile.ts:936-974 | unless the phase throws, exactly the exported people, at most two, exceed 100%, each between 130% and 150%, and all loads still add up; when it throws and when it repeats a pair, exactly, from the tables before it; five eligible projects rule both out |
| Staffing.ClosedProjectsAddNoLoad | prisma/seeds/it-company-profile.ts:977-1001 | closed projects change nobody's current load and emit only well-formed numbered rows |
| StaffingRows.EveryClosedSlotHasItsRow | prisma/seeds/it-company-profile.ts:977-1001 | a closed project's 6 to 9 rows, in order: whose turn it is in the pool, share, start, approval, request and an end before the project's own |
| StaffingFactory.LastRowTells | prisma/seeds/it-company-profile.ts:1004-1018 | the last row is the terminated person's, over the sixth closed project from its start to its end if it has one |
| Staffing.LoadSplits | prisma/seeds/it-company-profile.ts:907-915 | what the readers count as staffed plus what is still proposed is the factory's load |
| StaffingFactory.Factory.FindPerson | prisma/seeds/it-company-profile.ts:885-901 | the two probing loops make exactly the choice of the specification, the first in the ring from the seed who will do |
| StaffingFactory.Factory.StaffSlot | prisma/seeds/it-company-profile.ts:880-933 | one slot of the loop, its three ways to leave the slot out included |
| StaffingFactory.Factory.StaffActiveProjects | prisma/seeds/it-company-profile.ts:876-935 | the whole loop ends in consistent tables under the cap |
| StaffingFactory.Factory.PickOverAllocated | prisma/seeds/it-company-profile.ts:944-949 | the early-exit walk over the map picks the people of the specification |
| StaffingFactory.Factory.OverAllocate | prisma/seeds/it-company-profile.ts:943-974 | the over-allocation phase on all tables, or nothing exactly when it throws |
| StaffingFactory.Factory.StaffClosedProjects | prisma/seeds/it-company-profile.ts:977-1001 | the completed assignments of closed projects, ids continuing |
| StaffingFactory.Factory.Run | prisma/seeds/it-company-profile.ts:838-1018 | the three phases together: exactly when they throw and when a pair is repeated, the rows, the exported ids, the load bands, conservation, numbering, and which rows are well-formed, for closed projects with or without an end |
| FillHistory.ReplayReachesTheFillStatus | prisma/seeds/it-company-profile.ts:2012-2049 | a history replays from OPEN to the mapped fill status exactly when the assignment is approved unless proposed and ended if released |
| FillHistory.RowsTakeLiveEdges | src/modules/project-positions/domain/value-objects/position-fill-status.ts:82-118 | every generated row takes an edge of the live state machine and is named after its target |
| FillHistory.HistoryTells | prisma/seeds/it-company-profile.ts:2012-2049 | a complete assignment's rows are the steps to its status, each on its date, and name the person as the one who comes or, in a release, leaves |
| FillHistory.PositionTells | prisma/seeds/it-company-profile.ts:2012-2049 | in the whole table a position has a release row exactly when its assignment is completed and ended: its last row, dated at that end and naming the person |
| FillHistory.HistoryInOrder | prisma/seeds/it-company-profile.ts:2012-2049 | a factory row's history is in time order exactly when its release is not before its approval |
| FillHistory.ClosedProjectLasts | prisma/seeds/it-company-profile.ts:786-791 | a generated closed project runs from its offset into the window for 180 to 539 days, by its number |
| FillHistory.LongProjectsReleaseInOrder | prisma/seeds/it-company-profile.ts:977-1001 | a closed project of 49 days or more always releases after approving, whatever is drawn |
| FillHistory.ShortProjectsMayNot | prisma/seeds/it-company-profile.ts:977-1001 | a shorter one releases before approving on the largest draws, so 49 days is exact |
| FillHistory.TableByPosition | prisma/seeds/it-company-profile.ts:2011-2049 | in the whole table each position's rows are exactly its own history |
| FillHistory.FactoryHistoriesReplay | prisma/seeds/it-company-profile.ts:1952-2049 | an assignment's rows replay within the whole table to its position's fill status exactly when it is approved unless proposed and ended if released, as well-formed factory rows are |
| BenchAging.LatestIsLatest | prisma/seeds/it-company-profile.ts:2068-2076 | the map holds each person's latest release |
| BenchAging.OrderIsByFirstRelease | prisma/seeds/it-company-profile.ts:2068-2076 | the map's order is that of each person's first release in the table |
| BenchAging.RedateMovesChosenRows | prisma/seeds/it-company-profile.ts:2077-2082 | only the chosen rows change, only in their date, and to 1 to 180 days ago |
| BenchAging.BenchIsRecent | prisma/seeds/it-company-profile.ts:2051-2082 | after the pass each benched person's latest release is within 180 days, exactly one of their rows moved, and no other row changed |
| BenchAging.DrawsInTurn | prisma/seeds/it-company-profile.ts:2077-2082 | the m-th benched person in map order gets the draw seeded with 31 m + 7, in days before now |
| BenchAging.ReleasedAreOnTheBench | prisma/seeds/it-company-profile.ts:2051-2082 | everyone on the bench after a completed assignment does have a latest release, and it is at most 180 days old |
| BenchAging.StaffedNowHaveLoad | prisma/seeds/it-company-profile.ts:2051-2066 | the pass counts as staffed just those with booked or assigned load |
| BenchAging.BuildHistory | prisma/seeds/it-company-profile.ts:2011-2049 | the history is built of distinct fresh row objects carrying the table's values |
| BenchAging.FindLatest | prisma/seeds/it-company-profile.ts:2068-2076 | the scan leaves a map of references into the table to the latest releases |
| BenchAging.RedateBench | prisma/seeds/it-company-profile.ts:2077-2082 | writing through those references changes the table as specified |
| BenchAging.History | prisma/seeds/it-company-profile.ts:2011-2082 | building and re-dating together, with the 180-day bound on the result, which everyone on the bench with an ended assignment meets |
| SeedLifecycle.RedatingKeepsReplay | prisma/seeds/it-company-profile.ts:2051-2082 | re-dating leaves every position's history replaying to the same status |
| SeedLifecycle.AllHistoriesInOrder | prisma/seeds/it-company-profile.ts:977-1018 | when every closed project lasts 49 days, all histories of the whole output are in time order before the re-dating, the terminated person's included, with or without an end |
| SeedLifecycle.GeneratedHistoriesInOrder | prisma/seeds/it-company-profile.ts:780-1018 | with the closed projects the seed itself generates they are, whatever is drawn |
| SeedLifecycle.SeedStaffing | prisma/seeds/it-company-profile.ts:838-2082 | factory, history and re-dating together: exactly when they throw and when a pair is repeated, the assignments are the three phases' rows, the history rows are their table re-dated, the exported people alone exceed the cap, every position replays to its fill status (the last exactly when its project has an end), and everyone on the bench was last released within 180 days, as everyone there with an ended assignment was |
| CandidateSlates.SlateIsAsFullAsPossible | prisma/seeds/it-company-profile.ts:2101-2106 | a slate has exactly the smaller of the requested size and the number of distinct eligible people, all distinct and eligible |
| CandidateSlates.PicksInTurn | prisma/seeds/it-company-profile.ts:2101-2106 | each pick is the first in the ring, from the seed, who is suitable and not picked before |
| CandidateSlates.ScoresFall | prisma/seeds/it-company-profile.ts:2113 | match scores are whole hundredths and fall by 0.08 a rank |
| CandidateSlates.BuildSlate | prisma/seeds/it-company-profile.ts:2099-2124 | one slate: three or two by the draw, or all there are; the next in the ring each time, never the proposed person or one twice; ranks, scores and availability falling, and dates one to six days back by their draws |
| Calendar.YearFromDay | prisma/seeds/it-company-profile.ts:98-103 | YearFromTime: the year whose days contain the day |
| Calendar.DayRoundTrip | prisma/seeds/it-company-profile.ts:104-113 | MakeDay of a day's own year, month and date is the day |
| Calendar.CivilRoundTrip | prisma/seeds/it-company-profile.ts:104-113 | the year, month and date of MakeDay of a valid date are that date |
| Calendar.CivilOrder | frontend/src/lib/workload-helpers.ts:54 | day order is the field-by-field order of dates |
| Calendar.SetDateShifts | prisma/seeds/it-company-profile.ts:93-97 | `setUTCDate(getUTCDate() + n)` moves by exactly n days across any boundary |
| Calendar.SetMonthForward | prisma/seeds/it-company-profile.ts:109-113 | one month forward is the starting month's length in days, overflow included |
| Calendar.SetMonthMoves | prisma/seeds/it-company-profile.ts:98-113 | setting the month, forward or back, keeps the time and the date, and a date the month lacks runs over into the next |
| Calendar.SetMonthBack | prisma/seeds/it-company-profile.ts:98-103 | one, two and three months back are 28 to 31, 59 to 62 and 89 to 92 days |
| SeedClock.MondayOfIsTheWeekStart | prisma/seeds/it-company-profile.ts:1313-1320 | `mondayOf` is the one Monday midnight in the seven days up to the instant |
| SeedClock.WeekMondaySteps | prisma/seeds/it-company-profile.ts:114-121 | `weekMonday(w)` is exactly w weeks before this week's Monday and already a Monday |
| SeedClock.MonthThenMonday | prisma/seeds/it-company-profile.ts:1370-1371 | the history cursor always advances by exactly 28 days |
| SeedClock.MonthsAgoInDays | prisma/seeds/it-company-profile.ts:98-103 | `monthsAgo` of one to three is a midnight so many months' days back |
| SeedClock.MonthsAgoIsByMonth | prisma/seeds/it-company-profile.ts:98-103 | `monthsAgo(n)` is the same date n months back, or runs over by what that month lacks |
| RagSnapshots.HistoryEveryFourWeeks | prisma/seeds/it-company-profile.ts:1356-1373 | the history loop ends, visits every fourth Monday from the start and stops just at its bound |
| RagSnapshots.WeeklyIsTheMondays | prisma/seeds/it-company-profile.ts:1328-1354 | the weekly loop visits exactly the Mondays of the last weeks not before the start |
| RagSnapshots.HistoryPrecedesWeekly | prisma/seeds/it-company-profile.ts:1327-1373 | history weeks and weekly weeks of a project never coincide, for any `NOW` |
| RagSnapshots.OneSnapshotPerWeek | prisma/seeds/it-company-profile.ts:1322-1400 | no project has two snapshots for one week in the whole table |
| RagSnapshots.SnapshotsExactly | prisma/seeds/it-company-profile.ts:1322-1400 | exactly which projects have a row for which weeks: the last twelve Mondays, every fourth Monday up to three months ago, and for a closed project every fourth Monday up to its own end |
| RagSnapshots.SnapshotTable.PushWeeklyFor | prisma/seeds/it-company-profile.ts:1329-1331 | the weekly loop of one project |
| RagSnapshots.SnapshotTable.PushHistory | prisma/seeds/it-company-profile.ts:1357-1372 | the cursor loop of one project, with its termination |
| RagSnapshots.SnapshotTable.PushWeekly | prisma/seeds/it-company-profile.ts:1328-1354 | all active projects' weekly rows |
| RagSnapshots.SnapshotTable.PushActiveHistory | prisma/seeds/it-company-profile.ts:1356-1373 | all active projects' history rows |
| RagSnapshots.SnapshotTable.PushClosedHistory | prisma/seeds/it-company-profile.ts:1375-1400 | all closed projects' rows up to their end |
| RagSnapshots.SnapshotTable.Fill | prisma/seeds/it-company-profile.ts:1322-1400 | the three loops together leave a table without a repeated project and week |
| BusinessDays.WeekdayCount | prisma/seeds/it-company-profile.ts:1802-1811 | the number of weekdays among the days after a start, in closed form |
| BusinessDays.NthWeekday | prisma/seeds/it-company-profile.ts:1802-1811 | the date of the n-th weekday after a start is unique and given by the closed form |
| BusinessDays.AddBusinessDays | prisma/seeds/it-company-profile.ts:1802-1811 | the walk ends, on a weekday, exactly n weekdays on, at the closed form; n of zero or less changes nothing |
| BusinessDays.ShiftAdds | prisma/seeds/it-company-profile.ts:1802-1811 | walking m and then n weekdays is walking m + n |
| IsoDate.ParsePrinted | frontend/src/lib/workload-helpers.ts:27-31 | a printed date of years 0 to 9999 reads back as its day |
| IsoDate.PrintParsed | frontend/src/lib/workload-helpers.ts:27-31 | a string that reads as a day is what that day prints as |
| IsoDate.PrintedOrder | frontend/src/lib/workload-helpers.ts:54 | string order of printed dates is chronological order |
| IsoDate.PrefixedOrder | frontend/src/lib/workload-helpers.ts:54 | a timestamp compares with a date by its day, and after it on the same day |
| WorkloadHelpers.AddDaysMoves | frontend/src/lib/workload-helpers.ts:27-31 | from any string an engine reads, `addDays` prints the instant moved by n days, or throws outside the range of `Date` |
| IsoDate.ReadParsed | frontend/src/lib/workload-helpers.ts:28 | reading any date-only form agrees with reading `YYYY-MM-DD` |
| IsoDate.ReadPrinted | frontend/src/lib/workload-helpers.ts:28-30 | every printed date reads back as its day in years 0 to 9999, and elsewhere as the first of its month |
| WorkloadHelpers.AddTwiceMoves | frontend/src/lib/workload-helpers.ts:27-31 | the second of two `addDays` starts at the midnight of the day that the first one's string stands for, or throws |
| WorkloadHelpers.AddDaysAdds | frontend/src/lib/workload-helpers.ts:27-31 | adding days twice is adding their sum, for all second summands, exactly when the stop is a midnight in years 0 to 9999 or on the first of a month |
| WorkloadHelpers.AddDaysInRange | frontend/src/lib/workload-helpers.ts:27-31 | so it is from a full date to a stop in years 0 to 9999, and adding none gives the string back |
| WorkloadHelpers.AddDaysMayLoseADay | frontend/src/lib/workload-helpers.ts:27-31 | two days on from 9999-12-31 and two back is 9999-12-30 |
| WorkloadHelpers.GenerateWeeks | frontend/src/lib/workload-helpers.ts:38-45 | for any base string the loop gives the dates of consecutive weeks, or throws exactly when the engine reads no date or a week is out of range |
| WorkloadHelpers.OverlapIsByDay | frontend/src/lib/workload-helpers.ts:47-55 | for every week start `addDays` prints, in any year, the string comparison decides exactly the overlap of days, or throws; the sentinel and both ends of years 0 to 9999 included |
| WorkloadHelpers.NoEndMayEnd | frontend/src/lib/workload-helpers.ts:51-54 | an assignment without an end does not overlap the week of 9999-12-27, whatever its start |
| WorkloadHelpers.TotalsByAssignment | frontend/src/lib/workload-helpers.ts:57-64 | over any weeks `Date` can hold the weekly totals add up to each percentage times the weeks overlapped, or throw exactly in one case |
| WorkloadHelpers.OverlapIsABlock | frontend/src/lib/workload-helpers.ts:47-55 | the weeks an assignment overlaps are one block between two computed indices |
| WorkloadHelpers.WeeksOverlappedClosedForm | frontend/src/lib/workload-helpers.ts:47-64 | the number of weeks overlapped, in closed form |
| PublicId.LookupInvertsPrefix | src/infrastructure/public-id/aggregate-type.ts:70-73 | looking up a prefix gives a type exactly when it is that type's prefix |
| PublicId.GeneratedIsValid | src/infrastructure/public-id/public-id.service.ts:53-85 | a generated id is valid for its own type only, gives the type back and is no UUID |
| PublicId.ValidShapeIsNoUuid | src/infrastructure/public-id/public-id.service.ts:66-95 | no id of valid shape looks like a UUID |
| PublicId.ValidShapeIff | src/infrastructure/public-id/public-id.service.ts:66-85 | a valid shape is exactly a registered prefix, of the expected type if one is given, an underscore and eight or more alphanumerics |
| PublicId.ExtractedIff | src/infrastructure/public-id/public-id.service.ts:66-85 | the type is read off exactly when the string is its prefix, an underscore and anything |
| PublicId.GenerateIsInjective | src/infrastructure/public-id/public-id.service.ts:53-59 | ids coincide only when type and all 48 random bits do |
| PublicId.IdGivesItsBytesBack | src/infrastructure/public-id/public-id.service.ts:53-59 | whoever can decode the encoder's strings gets the six bytes back in their order |
| PublicIdSerializer.ObjectKeepsItsOtherKeys | src/infrastructure/public-id/public-id-serializer.interceptor.ts:72-104 | remaining keys stay in order, and a value is replaced exactly when its companion string is there and not empty |
| PublicIdSerializer.KeptIsTheRest | src/infrastructure/public-id/public-id-serializer.interceptor.ts:78-81 | the kept entries are, in order, just those whose key is not merged away |
| PublicIdSerializer.CompanionKeysEndInPublicId | src/infrastructure/public-id/public-id-serializer.interceptor.ts:79-81 | the keys merged away are `publicId` and whatever ends in `PublicId` |
| PublicIdSerializer.ArraysAreRewrittenInPlace | src/infrastructure/public-id/public-id-serializer.interceptor.ts:57-70 | an array keeps its length and element k becomes the rewrite of element k; scalars stay |
| PublicIdSerializer.CompanionIsTheNamedString | src/infrastructure/public-id/public-id-serializer.interceptor.ts:83-99 | a value has a companion exactly when a non-empty string stands under `publicId` for `id`, or under `<name>PublicId` for `<name>Id` |
| PublicIdSerializer.RewrittenIsCompanionFree | src/infrastructure/public-id/public-id-serializer.interceptor.ts:78-81 | no `publicId` or `*PublicId` key is left at any depth |
| PublicIdSerializer.UnchangedIffCompanionFree | src/infrastructure/public-id/public-id-serializer.interceptor.ts:57-104 | exactly the trees without companion keys are unchanged |
| PublicIdSerializer.RewriteIsIdempotent | src/infrastructure/public-id/public-id-serializer.interceptor.ts:57-104 | a second rewrite changes nothing |
| PublicIdSerializer.CleanIffNothingLeaks | src/infrastructure/public-id/public-id-serializer.interceptor.ts:84-118 | the result is free of UUID strings exactly when no leak was met and no companion put in place is a UUID |
| PublicIdSerializer.StrictModeMayMiss | src/infrastructure/public-id/public-id-serializer.interceptor.ts:84-97 | a body with a UUID as its `publicId` meets no leak and keeps that UUID as its `id` |
| PublicIdSerializer.LeaksAreThere | src/infrastructure/public-id/public-id-serializer.interceptor.ts:106-118 | the path of every leak leads to the UUID-shaped string it reports |
| PublicIdSerializer.EntryLeaksInOrder | src/infrastructure/public-id/public-id-serializer.interceptor.ts:78-101 | leaks come in the order of the object's entries |
| PublicIdSerializer.ItemLeaksAreThere | src/infrastructure/public-id/public-id-serializer.interceptor.ts:64-68 | and of the array's elements |
| PublicIdSerializer.StrictRewriteIsUuidFree | src/infrastructure/public-id/public-id-serializer.interceptor.ts:106-118 | with valid companions a strict rewrite that does not throw is free of UUID strings |
| PublicIdSerializer.SecondPassCatchesTheRest | src/infrastructure/public-id/public-id-serializer.interceptor.ts:106-118 | a second strict pass throws exactly when a UUID is left |
| PublicIdSerializer.Interceptor.Intercept | src/infrastructure/public-id/public-id-serializer.interceptor.ts:49-55 | disabled it passes the body through; enabled it returns the rewrite and logs its leaks, or in strict mode throws at the first and logs none |
| PublicIdSerializer.Interceptor.Rewrite | src/infrastructure/public-id/public-id-serializer.interceptor.ts:57-70 | the recursive rewrite returns the tree function or the first leak, and logs every leak in order |
| PublicIdSerializer.Interceptor.RewriteItems | src/infrastructure/public-id/public-id-serializer.interceptor.ts:57-70 | the walk over an array stops at the first leak in strict mode |
| PublicIdSerializer.Interceptor.RewriteObject | src/infrastructure/public-id/public-id-serializer.interceptor.ts:72-104 | the key-by-key loop does the same for an object |
| PublicIdInsert.ConstraintIsRecognised | src/infrastructure/public-id/public-id-prisma.middleware.ts:108-110 | a violation reported by any constraint name that holds the column passes the error test |
| PublicIdInsert.ViolationIsAboutPublicId | src/infrastructure/public-id/public-id-prisma.middleware.ts:100-112 | the error test accepts exactly the unique violations that name the column, letter by letter up to case, in a column list or anywhere in a constraint |
| PublicIdInsert.RetryIsBounded | src/infrastructure/public-id/public-id-prisma.middleware.ts:81-98 | at most three attempts, a public-id violation reaches the caller only after all three, all ids regenerated once per collision and never otherwise, success adds exactly the batch and keeps ids unique |
| PublicIdInsert.OnlyPublicIdErrorsAreRetried | src/infrastructure/public-id/public-id-prisma.middleware.ts:86-97 | an error about anything else is the caller's after that attempt, with ids as they were and nothing drawn; one about the public id is retried with a new draw for every row |
| PublicIdInsert.FailsIffAllThreeCollide | src/infrastructure/public-id/public-id-prisma.middleware.ts:81-98 | without other faults the call fails exactly when the caller's ids and both batches drawn for them collide |
| PublicIdInsert.FreshIdsSucceedByTheSecondAttempt | src/infrastructure/public-id/public-id-prisma.middleware.ts:38-73 | when the draws of one regeneration are fresh the first attempt keeps the caller's ids or the second succeeds with new ones |
| PublicIdInsert.FreshIffDistinctDraws | src/infrastructure/public-id/public-id.service.ts:53-59 | in any table the next n ids are fresh exactly when the random bytes of those n draws do not repeat and are those of no id in the table |
| PublicIdInsert.OtherIdsAreNotAhead | prisma/migrations/20260607_publicid_foundation/migration.sql:40-51 | ids of another type, and backfilled or caller-supplied ids with a character outside the encoder's alphabet, are never in the way of a draw |
| PublicIdInsert.DrawnIdsAreValid | src/infrastructure/public-id/public-id-prisma.middleware.ts:64-73 | every id a retry puts in place is valid for the model's type |
| PublicIdInsert.DistinctDrawsSucceed | src/infrastructure/public-id/public-id-prisma.middleware.ts:38-98 | over real random bytes, in a table with ids from anywhere: when the bytes of one regeneration do not repeat and are those of no id in the table, the insert succeeds by the second attempt, the table gains the batch and stays unique, and every replaced id is valid for the model's type |
| PublicIdInsert.TwinsFailThreeTimes | src/infrastructure/public-id/public-id-prisma.middleware.ts:56-73 | an array that holds one row object twice collides with itself on every attempt |
| PublicIdInsert.Middleware.FillMissing | src/infrastructure/public-id/public-id-prisma.middleware.ts:59-63 | only missing ids are generated, in row order for distinct rows; afterwards every row has one |
| PublicIdInsert.FilledTells | src/infrastructure/public-id/public-id-prisma.middleware.ts:59-63 | given ids stay and the missing ones are the next draws in row order |
| PublicIdInsert.Middleware.RunWithPublicIdRetry | src/infrastructure/public-id/public-id-prisma.middleware.ts:81-98 | for distinct rows the counted loop equals the specified run: result, table, ids left in the rows, draws and attempts; with a row twice it fails as often as it may and leaves the table |
| PublicIdInsert.Middleware.Create | src/infrastructure/public-id/public-id-prisma.middleware.ts:38-54 | the create branch, which fills the id inside the attempt |
| PublicIdInsert.Middleware.CreateMany | src/infrastructure/public-id/public-id-prisma.middleware.ts:56-73 | the createMany branch, which fills ids before the loop, for arrays with and without a repeated row |
| Lockout.StepKeepsBudget | src/modules/auth/auth.service.ts:53-80 | each event keeps the account of failures still possible in the time left |
| Lockout.LockoutBoundsGuessing | src/modules/auth/auth.service.ts:53-80 | in any run over a span T, checked failures are at most M for each reset and one start, one per administrator change, and one per whole lockout period in T |
| Lockout.BoundIsReached | src/modules/auth/auth.service.ts:53-80 | that bound is reached for every number of resets, changes and periods |
| Lockout.SuccessStartsAfresh | src/modules/auth/auth.service.ts:53-80 | after a correct password or a reset, fewer wrong ones than the threshold leave the account open; wrong ones in a row are all checked up to the threshold, and the last of these locks it |
| Lockout.DisabledChecksNothing | src/modules/auth/auth.service.ts:181-183 | a disabled account checks no password for 36,500 days unless enabled or reset, and does again then |
| Lockout.AuthService.ValidateLocalCredentials | src/modules/auth/auth.service.ts:29-83 | the new account state and the verdict of one credential check, the lock's end included; no other account changes |
| Lockout.AuthService.UpdateAccount | src/modules/auth/auth.service.ts:171-190 | disabling and enabling as lock deadlines; the failure counter stays |
| RefreshTokens.StepIsSound | src/modules/auth/token.service.ts:36-101 | every call keeps hashes unique and every lineage revoked but for its newest row, and only adds rows or revokes them |
| RefreshTokens.RefreshTradesOneForOne | src/modules/auth/token.service.ts:70-92 | the outcome of a refresh and its effect on the number of live tokens, each exactly by conditions on the table and the account before the call |
| RefreshTokens.FailedRefreshMayRevoke | src/modules/auth/token.service.ts:84-91 | a refresh whose new hash is taken fails and leaves the account without a live token |
| RefreshTokens.IssuedTokenWorks | src/modules/auth/token.service.ts:59-92 | a refresh that issues revokes the one row and adds one of the same account and login; the new token works until its own expiry, the old one no more, every other as before |
| RefreshTokens.LoginTells | src/modules/auth/token.service.ts:36-68 | a login adds a row of a new lineage whose token works until it expires, unless its hash is taken |
| RefreshTokens.RevokeTells | src/modules/auth/token.service.ts:94-101 | a revocation stamps the unrevoked row with the hash and nothing else |
| RefreshTokens.OneLiveTokenPerLogin | src/modules/auth/token.service.ts:70-92 | in every run from the empty table each login has at most one live token |
| RefreshTokens.RedeemedAtMostOnce | src/modules/auth/token.service.ts:70-92 | in every run a token is redeemed at most once, and never once revoked |
| RefreshTokens.DeadLoginsStayDead | src/modules/auth/token.service.ts:70-101 | a login without a live token never has one again |
| RefreshTokens.RevokeEndsTheLogin | src/modules/auth/token.service.ts:94-101 | revoking a login's live token leaves it none |
| RefreshTokens.TokenService.IssueTokenPair | src/modules/auth/token.service.ts:59-67 | stores the hash with its expiry, or is refused by the unique index |
| RefreshTokens.TokenService.LogIn | src/modules/auth/token.service.ts:36-68 | a login starts a lineage of its own |
| RefreshTokens.TokenService.RefreshToken | src/modules/auth/token.service.ts:70-92 | the checks in order, revocation, then a new row in the same lineage |
| RefreshTokens.TokenService.RevokeRefreshToken | src/modules/auth/token.service.ts:94-101 | revokes an unrevoked row with the hash and nothing else |
| DrilldownTrail.StepKeepsPagesDistinct | frontend/src/app/drilldown-context.tsx:85-165 | no step puts a page on the trail twice, and after a route change the last crumb is the current address |
| DrilldownTrail.RouteChangeTells | frontend/src/app/drilldown-context.tsx:85-128 | what a route change leaves of the trail: one crumb after a reset, back to a page of the trail under its old title, one crumb at the root, or the page on top of at most seven |
| DrilldownTrail.NavigateToTells | frontend/src/app/drilldown-context.tsx:131-147 | what `navigateTo` leaves: back to a page of the trail, or all of it and one crumb more |
| DrilldownTrail.ResetAndRelabelTell | frontend/src/app/drilldown-context.tsx:151-165 | a reset raises the flag alone, a label changes the last title alone |
| DrilldownTrail.OnlyNavigateToOutgrowsTheCap | frontend/src/app/drilldown-context.tsx:121-145 | a step adds at most one crumb, and grows the trail past eight exactly when it is `navigateTo` to a new page |
| DrilldownTrail.ReachableTrails | frontend/src/app/drilldown-context.tsx:85-165 | every reachable trail has distinct pages and at most eight crumbs plus one per `navigateTo` |
| DrilldownTrail.NavigationIsUnbounded | frontend/src/app/drilldown-context.tsx:131-147 | `navigateTo` calls and their route changes reach trails of any length |
| DrilldownTrail.ReturningRestoresTheTrail | frontend/src/app/drilldown-context.tsx:98-127 | going down k new pages, with any query strings, and back restores the trail exactly when nothing was capped, or when it was the bare root |
| DrilldownTrail.DrilldownProvider.OnRouteChange | frontend/src/app/drilldown-context.tsx:85-128 | the route effect on trail, stored copy and reset flag |
| DrilldownTrail.DrilldownProvider.Navigate | frontend/src/app/drilldown-context.tsx:131-147 | `navigateTo` on trail and stored copy |
| DrilldownTrail.DrilldownProvider.Relabel | frontend/src/app/drilldown-context.tsx:157-165 | only the last crumb's label changes |

## Left out

- Text, roles, notes, names, ratings and other descriptive columns of the seed rows, and the literal people, projects and pools: data without an invariant of its own. Which pool a project draws on is an input.
- `rng` is any function into the asked range; its sine formula is not modelled. Scores and the closed projects' offsets are exact rationals instead of floating point.
- The SLA columns of positions, positions made from staffing requests, and the choice of every second proposed position for a slate: one-line mappings.
- What `new Date` makes of a string is a parameter of the workload helpers: it is assumed to read the date-only forms of section 15.9.1.15 of ECMA-262 5.1 (year, year and month, or full date, the year with four digits or a sign and six) as that section says, and may read any other string in any way. Week starts are the strings `addDays` prints.
- `getCurrentWeekMonday`, labels and colours. Assignment dates may carry a time after the date.
- `Date` values outside the representable range appear only as the RangeError of `addDays`; in the seed, instants are unbounded.
- PublicIdInsert.Middleware.FillMissing: for an array that holds one row object twice it says that every row gets an id and none is replaced, not which draw goes where, because such an insert fails on every attempt anyway.
- The Sqids encoder and SHA-256 are parameters: the first an injection of pairs of 24-bit numbers into strings of ten or more alphabet characters, the second any function. bcrypt appears as the result of the comparison, JWT signing not at all.
- Objects that are not JSON, such as `Date`, and a `__proto__` key in a response body, which assignment would not keep as a key. Lower-casing of error targets covers ASCII, which decides the comparison with `publicid`.
- Models without a public id, other actions and `createMany` with duplicates skipped: the middleware passes them on. The database's other errors are an arbitrary input per attempt.
- Interleavings of concurrent calls, and account deletion with its cascade to tokens: each service call is one step. Only the lock fields of an account are kept; a password reset appears as an event of a run.
- `labelForPath` is a parameter, and session storage is assumed to work.
