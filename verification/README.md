# Driver-behaviour scoring of a movement report

This project models the scoring logic of `pythonProcessing/main.py`. That script reads a vehicle telematics "movement report" and scores three behaviours:

- harsh braking, after false alarms are suppressed;
- speed violations;
- night driving, scored per trip.

The Dafny model works on pure functions over a sequence of event records. A record (`Telemetry.Record`) holds a VehicleStatus string, a speed, and a timestamp of type `Option<int>`. The timestamp counts seconds since midnight of a reference day. `None` stands for pandas' `NaT`, the value that `errors='coerce'` gives an unparsable date. Every comparison against `NaT` is false, and the model writes each such case out:

- The braking sort puts `NaT` last.
- A difference that involves `NaT` is absent, so its record is kept.
- A `NaT` hour is never in the night window.
- `min`/`max` skip `NaT`.
- A `NaT` start or end makes the minute loop run zero times.

Modules:

- `Telemetry`: the record, the row with its trip number, `Option`, and the status tags.
- `Seqs`: order-preserving selection (a pandas boolean mask), the subsequence relation, and first-appearance deduplication (`unique`).
- `Clock`: the hour of a time, the `Timedelta.components` breakdown, and `ceil_time_to_minute`.
- `Trips`: trip numbering as an explicit fold, proved equal to the inclusive running count of "Start up" records. It also proves the shape of trips.
- `Braking`: selection, an insertion sort by time, and false-alarm suppression. Suppression is written two ways and proved equal: as a left-to-right pass against the previous record, and as pandas' vectorised `~(diff().abs() <= 120)` mask.
- `Speeding`: the "Speed Violation" records at 70 km/h or more.
- `Night`: night eligibility, trip selection, trip start and end, and the minute-stepping penalty loop. The loop is a `while` method proved equal to a recursive specification and to a closed-form instant count. This module also gives the duration breakdown and the loop over the trips, which stops at the first trip that has no duration.
- `Report`: the three analyses over the same records.

Some behaviours of the code are easy to misread. The model does what the code does:

- Three braking alerts at t, t+60 s and t+121 s leave only the first alert (`Braking.ChainedFalseAlarms`). Each alert is compared with its raw predecessor in time order, not with the last alert kept. The gap 61 s is at most 120 s, so the third alert goes too. Comparing each alert with the last alert kept would keep the first and the third.
- A night trip with more than one record and a missing start or end is not skipped. Its penalty of 0 is printed at line 73. Line 85 then raises, because pandas' `NaT` has no `components`, and the loop and the script end there (`Night.RunLoop`, `Night.EvaluateAll`). A trip whose end comes before its start has a negative duration, scores 0 and is printed normally.
- Trip 0 holds the records before the first "Start up", so it never has a start. When it has a night record and more than one record, it is the first trip evaluated, and the report prints its penalty of 0 and no trip line at all (`Night.TripZeroStopsNightReport`).
- The code computes no braking points and no speed-penalty tiers, so the model has none.

## Model

| member | source | states |
|---|---|---|
| Trips.TripNumberIsRunningCount | pythonProcessing/main.py:38 | the trip number of record i equals the number of "Start up" records among records 0..i inclusive |
| Trips.TripNumberStep | pythonProcessing/main.py:38 | record 0 is on trip 1 if it is a "Start up" and on trip 0 otherwise; each later record keeps its predecessor's number, plus one exactly when it is a "Start up" |
| Trips.TripNumbersMonotone | pythonProcessing/main.py:38 | trip numbers never decrease along the report |
| Trips.TripsContiguous | pythonProcessing/main.py:38 | the records of one trip form a contiguous run |
| Trips.StartUpOpensTrip | pythonProcessing/main.py:38 | a "Start up" record comes no later than any other record of its trip, so it is the trip's only "Start up" |
| Trips.TripHasOpeningStartUp | pythonProcessing/main.py:38 | every trip numbered 1 or more contains a "Start up" record at or before each of its records |
| Trips.TripZeroHasNoStartUp | pythonProcessing/main.py:38 | no record of trip 0 is a "Start up" |
| Braking.SortByTimeSpec | pythonProcessing/main.py:27 | the sort returns a permutation of its input, in ascending time order with NaT last, and its timestamps are a permutation of the input's timestamps |
| Braking.SortKeepsSorted | pythonProcessing/main.py:27 | sorting records that are already in time order changes nothing |
| Braking.SortedTimesUnique | pythonProcessing/main.py:27 | two time-sorted timestamp sequences with the same multiset of times are equal |
| Braking.DropFalseAlarmsIsMasked | pythonProcessing/main.py:28 | the pass against each record's raw predecessor keeps the same records as the diff mask: the first is kept, and record i > 0 is dropped exactly when it and record i-1 both have times at most 120 s apart |
| Braking.HarshBrakingSelection | pythonProcessing/main.py:26-28 | the surviving events are the masked subsequence of the time-sorted "Harsh Braking" records, start with the first sorted record, and contain only "Harsh Braking" records of the report |
| Braking.SuppressCountDependsOnTimes | pythonProcessing/main.py:27-28 | two sequences of braking records with the same multiset of timestamps leave the same number of events after sorting and suppression, whatever their order |
| Braking.ChainedFalseAlarms | pythonProcessing/main.py:28 | alerts at t, t+60 and t+121 leave only the first |
| Braking.DistantAlarmsKept | pythonProcessing/main.py:28 | alerts at t and t+300 both survive |
| Speeding.SpeedViolations | pythonProcessing/main.py:32-33 | the selection is an order-preserving subsequence of the report. It holds each "Speed Violation" record at 70 km/h or more as often as the report does, and no other record |
| Night.NightHourWindow | pythonProcessing/main.py:45 | for an hour in 0..23, `hour >= 23 or hour <= 4.5` holds exactly for the hours 23, 0, 1, 2, 3 and 4 |
| Night.NightTrips | pythonProcessing/main.py:52 | the night trip list holds no trip number twice |
| Night.TaggedInTripOrder | pythonProcessing/main.py:38 | the tagged records are in trip order: trip numbers never decrease along the report |
| Night.FilterKeepsTripOrder | pythonProcessing/main.py:45-46 | masking records that are in trip order leaves them in trip order |
| Seqs.DistinctAscending | pythonProcessing/main.py:52 | `unique()` of a non-decreasing sequence of trip numbers is strictly increasing |
| Night.NightTripsAscending | pythonProcessing/main.py:38-52 | over records in trip order, the night trip list is strictly increasing, so trips are evaluated lowest number first |
| Night.NightTripSelection | pythonProcessing/main.py:44-52 | a trip is listed exactly when one of its records has a time, an hour in the night window and a status other than the ignition-off health check |
| Night.TripRows | pythonProcessing/main.py:54 | a trip's records are an order-preserving subsequence of the report that holds each record with that trip number as often as the report does, and no other record |
| Night.StartTime | pythonProcessing/main.py:57 | the start is the earliest time among the trip's "Start up" records, and it is absent exactly when none of them has a time |
| Night.EndTime | pythonProcessing/main.py:58 | the end is the latest time among the trip's "Ignition off" records, and it is absent exactly when none of them has a time |
| Night.Rate | pythonProcessing/main.py:65-70 | one instant scores 0, 2, 4 or 6 points, and it scores more than 0 exactly when its hour is in the night window |
| Night.ScanPenalty | pythonProcessing/main.py:62-72 | the while loop terminates. Its penalty equals the recursive minute-by-minute specification, and its instant count equals (end - start - 59) / 60 + 1 when end >= start + 59 and 0 otherwise, including a missing start or end |
| Night.InstantsClosedForm | pythonProcessing/main.py:62-72 | stepping from t by 60 s while not past e visits (e - t) / 60 + 1 instants when t <= e and none otherwise |
| Night.PenaltyBounds | pythonProcessing/main.py:64-72 | a trip's penalty is even and at most 6 times its instant count |
| Night.MalformedTripScoresNothing | pythonProcessing/main.py:57-64 | a trip with no start, no end, or an end before its first instant (so any end before the start) scores 0 over 0 instants |
| Night.TwoMinutesAtEleven | pythonProcessing/main.py:62-72 | a trip from 23:00:00 to 23:02:00 scores 2 instants and 4 points |
| Night.DaytimeScanScoresNothing | pythonProcessing/main.py:62-72 | a scan scores 0 exactly when every instant it visits (first instant, then every 60 s while not past the end) lies in hours 5 to 22 of its day; seconds between the last instant and the end do not matter |
| Night.LateEndScoresNothing | pythonProcessing/main.py:62-72 | a trip from 22:59:00 to 23:00:30 has the one instant 22:59:59 and scores 0, although it ends in hour 23 |
| Night.Duration | pythonProcessing/main.py:59 | the duration is NaT exactly when the start or the end is NaT, and otherwise is the time from start to end |
| Night.QualifyingTrips | pythonProcessing/main.py:53-56 | the evaluated trips are the listed trips with more than one record, in listed order |
| Night.DurationParts | pythonProcessing/main.py:85 | components exist exactly when the duration is not NaT, and then they are in range and add up to the duration |
| Night.RunLoop | pythonProcessing/main.py:53-85 | the printed lines are a prefix of the evaluated trips, each with a duration. When the loop stops early, the trip that stops it is the next evaluated trip and has no duration; otherwise every evaluated trip is printed |
| Night.EvaluateAll | pythonProcessing/main.py:53-85 | the printed trip numbers are a subsequence of the listed ones; each printed line is the evaluation of a trip with more than one record and has a duration; the loop stops exactly when some listed trip with more than one record has no duration. It stops at the first such trip in list order: every qualifying trip listed before it has a duration and is printed, and only trips listed before it are printed. If nothing stops it, every such trip is printed |
| Night.StopsAtFirstFailure | pythonProcessing/main.py:53-85 | for any test of which trips are evaluated and any evaluation, a loop that stops early stops at some listed index: that trip is evaluated and stops the loop, every evaluated trip listed before it has a duration and is printed, and every printed line is the evaluation of a trip listed before it |
| Night.EvaluateAllStopsAtFirstFailure | pythonProcessing/main.py:53-85 | the same first-failure statement for the trips of one report, in terms of trips with more than one record and trips without a duration |
| Night.StoppedAtLowest | pythonProcessing/main.py:52-85 | when the listed trips are strictly increasing, the trip that stops the loop is above every printed trip, and every listed trip below it passes and, if it has more than one record, is printed |
| Night.NightDrivingSelection | pythonProcessing/main.py:44-85 | each printed line belongs to a trip with a night-eligible record and more than one record, and carries that trip's own penalty and duration. If no such trip lacks a duration, a trip is printed exactly when it has a night-eligible record and more than one record; otherwise the loop stops at such a trip without a duration, and at the first such trip in the night trip list |
| Night.NightDrivingStopsAtLowestFailure | pythonProcessing/main.py:38-85 | over records in trip order, a stopped report stops at the lowest-numbered night trip that has more than one record and no duration: every night trip numbered below it has a duration and, if it has more than one record, is printed, and every printed trip is numbered below it |
| Night.TripZeroScoresNothing | pythonProcessing/main.py:57 | trip 0 has no start time, so it scores 0 and has no duration |
| Night.FirstNightTripIsZero | pythonProcessing/main.py:38-52 | when trip 0 has a night-eligible record, it is the first trip listed |
| Night.TripZeroStopsNightReport | pythonProcessing/main.py:52-85 | when trip 0 has a night-eligible record and more than one record, no trip line is printed and the loop stops at trip 0 with penalty 0 |
| Clock.Hour | pythonProcessing/main.py:44 | the hour lies in 0..23 and is the hour of the day the time falls in |
| Clock.ComponentsOf | pythonProcessing/main.py:85 | hours lie in 0..23, minutes in 0..59 and seconds in 0..59, and days, hours, minutes and seconds add back up to the duration. Whole days are floored and are not displayed |
| Clock.ComponentsRoundTrip | pythonProcessing/main.py:85 | every in-range breakdown is the breakdown of the duration it denotes |
| Clock.CeilToMinuteAsWritten | pythonProcessing/main.py:3-5 | the code as written returns a whole minute strictly after the time, at most 60 s later |
| Clock.CeilAsWrittenMovesWholeMinute | pythonProcessing/main.py:3-5 | at 00:02:00 the function as written returns 00:03:00, while the ceiling is 00:02:00 |
| Clock.CeilToMinute | pythonProcessing/main.py:3-5 | the ceiling is a whole minute at or after the time and less than 60 s after it |
| Clock.CeilToMinuteIsLeast | pythonProcessing/main.py:3-5 | no whole minute at or after the time comes before the ceiling |

## Left out

- CSV loading, column drops, printing and the f-string layout (lines 9, 13-14, 18, 23, 29, 34-35, 73, 85): these are I/O and presentation. `Report.Summarize` returns the printed values as data.
- Location extraction with a regular expression (line 17): it feeds only the displayed latitude and longitude.
- Date parsing with `pd.to_datetime` (line 21): this is a library call. Timestamps arrive already parsed as `Option<int>` seconds, and `None` stands for `NaT`.
- Month-to-date odometer line (line 23): it is float formatting of the last row. On an empty report, `iloc[-1]` raises IndexError there, before any scoring is printed; `Report.Summarize([])` still returns a summary.
- Time zones, DST and sub-second parts of times: the datetimes are naive and are modelled as whole seconds. `ceil_time_to_minute` therefore has no microsecond part to subtract.
- Sort stability: pandas' default sort is not stable, and the insertion sort here is. Records with equal times may come out in a different order. The braking count is unaffected (`Braking.SuppressCountDependsOnTimes`).
- Speed is an integer, and a missing (NaN) speed is not modelled. A NaN speed fails `>= 70` in pandas, so such a record would never be selected.
- The exception raised at line 85 is modelled only as the end of the loop (`Night.NightRun`'s `failed` trip). The traceback text and the script's exit status are not modelled.
- Speed-limit lookups, speed-penalty tiers and braking point totals: the code does not compute them.

## Findings

| source | as written | input that shows it | evidently intended | confidence | as-written member | corrected member |
|---|---|---|---|---|---|---|
| pythonProcessing/main.py:3-5 | `ceil_time_to_minute` adds one minute and subtracts the seconds part, so a time already on a whole minute moves a full minute forward | 00:02:00 gives 00:03:00 | the ceiling its own doc line promises: the time itself when it is on a whole minute | medium, not executed (the function is never called) | Clock.CeilToMinuteAsWritten, Clock.CeilAsWrittenMovesWholeMinute | Clock.CeilToMinute, Clock.CeilToMinuteIsLeast |
