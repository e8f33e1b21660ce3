# Store uptime/downtime estimator — a Dafny model

This project models the core of a store-monitoring report service. For each
store it estimates the uptime and downtime within the store's business hours
over three trailing windows: the last hour, the last day and the last week
before one reference instant. The input is a set of sparse point polls, each
"active" or "inactive". The model has three parts:

- **Schedule** (`schedule.dfy`). A store has weekly business-hours rules in
  local time. A rule whose end is before its start runs past midnight. The
  scheduled time inside an interval comes from a walk over the local dates:
  on each date, every rule of that weekday is intersected with the interval,
  and the overlaps are summed. Overlapping rules are summed, not merged. A
  store with no rules is open 24×7. The module also has the test for whether
  one local instant lies in business hours.
- **Interpolator** (`interpolator.dfy`). This part turns the sorted polls of
  one window into uptime.
  - No polls means no uptime.
  - One poll means all of the scheduled time or none of it. No
    business-hours test is applied.
  - Two or more polls go through a loop. Polls outside business hours are
    skipped. The time between two retained polls counts as uptime when the
    earlier one was active. Backward extrapolation is capped at the
    scheduled total. Forward extrapolation is capped at what is left of it.
  - Downtime is the scheduled total minus the uptime.
  - The hour window is reported in minutes; the day and week windows are
    reported in hours.
- **Report** (`report.dfy`). This is the per-store aggregator. It builds the
  windows [now − 1 h, now], [now − 1 d, now] and [now − 7 d, now]. The
  window query keeps the store's polls with both bounds inclusive and sorts
  them ascending. If the store's zone is unknown, the row is all zeros.

Representation:
- Instants are integer seconds. A store's zone is a fixed offset in seconds,
  so local time is UTC + offset. Day numbers count from 1970-01-01, a
  Thursday. Weekday 0 is Monday (`app/models/models.py:34`).
- The source works in float minutes, which are seconds / 60. The model keeps
  integer seconds. Sums, `min` and the comparison with zero do not change
  under that scaling. Only the reported figures are converted:
  seconds / 60 for the hour, seconds / 3600 for the day and the week.

The model follows the code as written, including these behaviours:
- There is no final clamp of uptime to [0, scheduled time].
  `Interpolator.UptimeMayExceedSchedule` gives a window whose uptime exceeds
  its scheduled time, so its downtime is negative.
- An observation skipped for being outside business hours does not update
  the previous observation.
- Overlapping rules are counted twice
  (`Schedule.DuplicatedRulesCountTwice`), so the scheduled total can exceed
  the interval's length (`Schedule.OverlappingRulesExceedInterval`).
- A midnight-spanning rule of the previous weekday is never consulted
  (`Schedule.PreviousDaySpanIgnored`).

## Model

| member | source | states |
|---|---|---|
| `Schedule.Midnight` | app/services/report_service.py:283-284 | the instant built from a date at `time.min` lies on that date |
| `Schedule.WeekdayOf` | app/services/report_service.py:253 | the weekday of a local date is one of 0..6 |
| `Schedule.WeekdayNumbering` | app/services/report_service.py:253 | day 4 (1970-01-05, a Monday) has weekday 0, and each date's weekday is the previous date's plus one, modulo 7 (Python's `weekday()`, 0 = Monday) |
| `Schedule.NextMidnight` | app/services/report_service.py:283-284 | each pass moves the cursor to the next local midnight: the new cursor is a midnight (time of day 00:00, as `time.min` gives), its date goes up by exactly one and the cursor strictly advances, by at most a day (the walk terminates) |
| `Schedule.CloseAt` | app/services/report_service.py:265-272 | a rule closes at its own end time of day, within a day after its open; it falls on the next date exactly when the rule spans midnight (end < start pushes the end one day later) |
| `Schedule.Overlap` | app/services/report_service.py:274-280 | a rule's overlap with [cursor, end] is never negative, never longer than the interval or the rule, and positive exactly when the two intervals meet with positive length |
| `Schedule.DaySeconds` | app/services/report_service.py:255-281 | one pass of the day walk adds a non-negative amount |
| `Schedule.CalculateBusinessTime` | app/services/report_service.py:242-286 | the day walk's total equals the per-(date, rule) overlap sum `BusinessSeconds`; a 24×7 store gets exactly end − start; with rules the total is never negative |
| `Schedule.IsWithinBusinessHours` | app/services/report_service.py:288-313 | true exactly when some rule with the instant's weekday has open ≤ t ≤ close on the instant's own date (close one day later for a midnight-spanning rule); false for an empty rule list |
| `Schedule.WalkNonNegative` | app/services/report_service.py:248-286 | the scheduled total over any interval is ≥ 0 |
| `Schedule.WalkZeroWithoutMatchingWeekday` | app/services/report_service.py:252-258 | when no rule's weekday is the weekday of a visited date, the total is 0 |
| `Schedule.DaySecondsZeroWithoutMatch` | app/services/report_service.py:255-258 | a date whose weekday no rule has contributes 0 |
| `Schedule.DaySecondsAppend` | app/services/report_service.py:258-280 | one pass sums the rules of two lists independently |
| `Schedule.WalkAppend` | app/services/report_service.py:252-284 | the whole walk is additive in the rule list |
| `Schedule.DuplicatedRulesCountTwice` | app/services/report_service.py:256-280 | listing the same rules twice doubles the scheduled total: overlapping rules are summed, not merged |
| `Schedule.OverlappingRulesExceedInterval` | app/services/report_service.py:256-280 | two copies of a Monday 09:00–10:00 rule over the one-hour local interval Monday 09:00–10:00 schedule 7200 s, twice the interval's length |
| `Schedule.MidnightSpanningExample` | app/services/report_service.py:270-272 | a Friday 22:00–02:00 rule in the interval Friday 21:00 to Saturday 03:00 yields 240 minutes |
| `Schedule.PreviousDaySpanIgnored` | app/services/report_service.py:290-310 | Friday's 22:00–02:00 rule is not consulted on Saturday: Saturday 00:00–03:00 has 0 scheduled time and Saturday 01:00 is outside business hours |
| `Interpolator.CalculateUptimeDowntime` | app/services/report_service.py:163-240 | uptime + downtime = the scheduled total in the window's unit on every path; a zero schedule gives (0, 0); no polls give uptime 0; one active poll gives downtime 0 and one inactive poll gives uptime 0; otherwise the uptime is the interpolation loop's result |
| `Interpolator.AllInactiveCarry` | app/services/report_service.py:196-229 | while every poll is inactive, the loop adds nothing and the previous observation is inactive |
| `Interpolator.AllInactiveNoUptime` | app/services/report_service.py:187-229 | a store that only reported inactive has no uptime, whatever its schedule |
| `Interpolator.SkippedPrefixCarry` | app/services/report_service.py:204-210 | while every poll so far lies outside business hours, the loop has added nothing and has no previous poll |
| `Interpolator.SkippedFirstSuppressesBackward` | app/services/report_service.py:208-215 | backward extrapolation needs poll 0 itself: if the polls before j are all skipped, the first retained poll j (not the last) adds nothing and only becomes the previous poll |
| `Interpolator.BackwardCapped` | app/services/report_service.py:210-215 | backward extrapolation from the window start adds at most the scheduled total |
| `Interpolator.CarryNonNeg` | app/services/report_service.py:199-229 | for sorted polls inside the window and a non-negative total, uptime so far is never negative and the previous poll is one already passed |
| `Interpolator.UptimeNonNegative` | app/services/report_service.py:187-229 | for sorted polls inside the window and a non-negative total, uptime is ≥ 0 with or without rules (only the upper bound can fail) |
| `Interpolator.ForwardCapKeepsWithinSchedule` | app/services/report_service.py:221-226 | when the last poll is retained and active, the forward cap leaves uptime ≤ the scheduled total |
| `Interpolator.AlwaysOpenCarryBounds` | app/services/report_service.py:199-229 | for a 24×7 store with sorted polls inside the window, uptime so far is between 0 and the time since the window start of the last poll passed, and within the total at the end |
| `Interpolator.AlwaysOpenUptimeWithinSchedule` | app/services/report_service.py:187-232 | a 24×7 store's uptime lies in [0, total], so its downtime is never negative |
| `Interpolator.AlwaysOpenAllActiveCarry` | app/services/report_service.py:208-226 | for a 24×7 store whose polls are all active, uptime so far equals the time since the window start of the last poll passed |
| `Interpolator.AlwaysOpenAllActiveFullUptime` | app/services/report_service.py:187-229 | a 24×7 store that only reported active is up for the whole window |
| `Interpolator.WithoutCarry` | app/services/report_service.py:204-206 | removing an interior skipped poll leaves the loop's carry unchanged at every later step |
| `Interpolator.SkippedObservationIsInvisible` | app/services/report_service.py:204-206 | an interior poll outside business hours neither adds time nor becomes the previous poll: removing it leaves the uptime unchanged |
| `Interpolator.UptimeMayExceedSchedule` | app/services/report_service.py:217-232 | with no final clamp, two polls 49 minutes apart in a window with 15 scheduled minutes give 50 minutes of uptime (negative downtime) |
| `Report.Filter` | app/services/report_service.py:111-115 | keeps exactly the rows of the store whose instant lies in [lo, hi], each matching row as often as it occurs in the table (duplicates included) |
| `Report.SelectWindow` | app/services/report_service.py:111-127 | the window query returns the store's rows with lo ≤ instant ≤ hi (both bounds inclusive), every one with its multiplicity in the table, sorted ascending by instant |
| `Report.SelectedAreSortedInWindow` | app/services/report_service.py:111-127 | what the query returns is sorted and inside the window, which the interpolator's bounds need |
| `Report.AlwaysOpenWindowBounds` | app/services/report_service.py:129-140 | for a 24×7 store, every window's uptime lies between 0 and the window's length |
| `Report.WindowUptimeNonNegative` | app/services/report_service.py:111-140 | for any store, rules and table, the uptime of a window [lo, hi] with lo ≤ hi is ≥ 0 |
| `Report.ComputeUptimeDowntime` | app/services/report_service.py:100-161 | the row uses the windows [now−1h, now], [now−1d, now] and [now−7d, now]; each column is the interpolator's result for the inclusive, sorted query; uptime + downtime = scheduled time, in minutes for the hour and in hours for the day and week; every uptime column of a known zone is ≥ 0; a 24×7 store's row sums to 60 minutes, 24 hours and 168 hours, with uptime within those; an unknown zone yields the all-zero row |

## Left out

- `generate_report` is left out: the database session, the maximum-timestamp query, the CSV file and its directory, report status persistence and the prints. So is its choice of the default zone `America/Chicago` for a store without a zone row: the model takes the zone name as a parameter.
- The ingestion helpers (`app/utils/helpers.py`), the web API (`main.py`, `app/api/routes.py`, `app/__init__.py`) and the driver scripts are not part of this model: they are I/O and plumbing.
- Time zones are fixed offsets. Daylight saving time and the IANA database are not modelled. The zone database is a map from zone name to offset. An unknown name stands for the lookup that fails, which is the only modelled exception. Database errors inside `compute_uptime_downtime` are not modelled.
- Float arithmetic is not modelled. Durations are exact integer seconds and the reported figures are exact reals. The rounding to two decimals is not modelled.
- Sub-second precision of timestamps and of business-hours times is not modelled.
- `Report.SelectWindow` sorts with a stable insertion sort, so polls with equal instants keep their table order. The SQL `order_by` leaves the order of such ties unspecified; the model fixes one of the permitted orders.
- `Report.ComputeUptimeDowntime` takes the observation table as a sequence. The three database queries become `Report.SelectWindow` over it.
