/**
 * The state interpolator: turns the sorted point observations of one store
 * ("active" / "inactive") inside one window into seconds of uptime and
 * downtime within the window's scheduled time.
 *
 * Observation instants and window bounds are UTC seconds; the store's zone
 * is a fixed offset in seconds, so the local instant is utc + offset.
 */
module Interpolator {
  import opened Schedule

  datatype Option<T> = None | Some(value: T)

  /** The two states a store poll can report. */
  datatype Status = Active | Inactive

  /** One poll of a store: its id, the UTC instant and the reported state. */
  datatype Observation = Observation(storeId: string, time: int, status: Status)

  /** The three report windows; the hour is reported in minutes, day and week in hours. */
  datatype Interval = Hour | Day | Week

  /** A window [start, end] (UTC), the store's rules and offset, and its scheduled seconds. */
  datatype Context = Context(start: int, end: int, rules: seq<Rule>, offset: int, total: int)

  /** What the interpolation loop carries: uptime so far and the last retained observation. */
  datatype Carry = Carry(uptime: int, prev: Option<Observation>)

  /** Scheduled seconds of the UTC window [start, end]; no rules at all means open 24x7. */
  function ScheduledSeconds(start: int, end: int, rules: seq<Rule>, offset: int): int
  {
    BusinessSeconds(start + offset, end + offset, rules, rules == [])
  }

  /** A duration in seconds in the unit of the interval's report column. */
  function InUnit(seconds: int, interval: Interval): real
  {
    if interval == Hour then seconds as real / 60.0 else seconds as real / 3600.0
  }

  /** An observation takes part in the interpolation if the store is 24x7 or it lies in business hours. */
  predicate Retained(o: Observation, ctx: Context)
  {
    ctx.rules == [] || IsWithinBusinessHours(o.time + ctx.offset, ctx.rules)
  }

  /**
   * One pass of the interpolation loop, for observation `i`. A skipped
   * observation leaves the carry unchanged. The first retained observation
   * extrapolates backward to the window start, capped at the scheduled
   * total, but only if it is observation 0 and active; a later one adds the
   * time since the previous retained observation if that one was active.
   * The last observation extrapolates forward to the window end, capped at
   * what is left of the scheduled total.
   */
  function Step(c: Carry, obs: seq<Observation>, i: nat, ctx: Context): Carry
    requires i < |obs|
  {
    var o := obs[i];
    if !Retained(o, ctx) then c
    else
      var up1 :=
        match c.prev
        case None => if i == 0 && o.status == Active then c.uptime + Min(o.time - ctx.start, ctx.total) else c.uptime
        case Some(p) => c.uptime + (if p.status == Active then o.time - p.time else 0);
      var up2 :=
        if i == |obs| - 1 && o.status == Active then up1 + Min(ctx.end - o.time, ctx.total - up1) else up1;
      Carry(up2, Some(o))
  }

  /** The carry after the first `n` passes of the loop. */
  function Interpolate(obs: seq<Observation>, n: nat, ctx: Context): Carry
    requires n <= |obs|
  {
    if n == 0 then Carry(0, None) else Step(Interpolate(obs, n - 1, ctx), obs, n - 1, ctx)
  }

  /**
   * Uptime in seconds: none without observations, the whole schedule or
   * nothing for a single observation (with no business-hours test), and
   * the interpolation loop for two or more.
   */
  function UptimeSeconds(obs: seq<Observation>, ctx: Context): int
  {
    if |obs| == 0 then 0
    else if |obs| == 1 then (if obs[0].status == Active then ctx.total else 0)
    else Interpolate(obs, |obs|, ctx).uptime
  }

  /**
   * Uptime and downtime of one window, in the interval's unit. The whole
   * scheduled time is split into the two: downtime is what is not uptime.
   * There is no final clamp of the uptime to the scheduled time.
   */
  method CalculateUptimeDowntime(statusData: seq<Observation>, startTime: int, endTime: int,
                                 businessHours: seq<Rule>, offset: int, interval: Interval)
    returns (uptime: real, downtime: real)
    ensures uptime + downtime == InUnit(ScheduledSeconds(startTime, endTime, businessHours, offset), interval)
    ensures ScheduledSeconds(startTime, endTime, businessHours, offset) == 0 ==> uptime == 0.0 && downtime == 0.0
    ensures ScheduledSeconds(startTime, endTime, businessHours, offset) != 0 ==>
              var ctx := Context(startTime, endTime, businessHours, offset, ScheduledSeconds(startTime, endTime, businessHours, offset));
              uptime == InUnit(UptimeSeconds(statusData, ctx), interval)
    ensures |statusData| == 0 ==> uptime == 0.0
    ensures |statusData| == 1 && statusData[0].status == Active ==> downtime == 0.0
    ensures |statusData| == 1 && statusData[0].status == Inactive ==> uptime == 0.0
  {
    var isAlwaysOpen := |businessHours| == 0;
    var localStart := startTime + offset;
    var localEnd := endTime + offset;
    var total := CalculateBusinessTime(localStart, localEnd, businessHours, isAlwaysOpen);
    if total == 0 {
      return 0.0, 0.0;
    }
    ghost var ctx := Context(startTime, endTime, businessHours, offset, total);
    var up := 0;
    if |statusData| == 0 {
      up := 0;
    } else if |statusData| == 1 {
      if statusData[0].status == Active {
        up := total;
      }
    } else {
      var prev: Option<Observation> := None;
      for i := 0 to |statusData|
        invariant Carry(up, prev) == Interpolate(statusData, i, ctx)
      {
        var entry := statusData[i];
        var localTime := entry.time + offset;
        if !isAlwaysOpen && !IsWithinBusinessHours(localTime, businessHours) {
          continue;
        }
        match prev {
          case None =>
            if i == 0 && entry.status == Active {
              var timeDiff := entry.time - startTime;
              up := up + Min(timeDiff, total);
            }
          case Some(p) =>
            var timeDiff := entry.time - p.time;
            up := up + (if p.status == Active then timeDiff else 0);
        }
        if i == |statusData| - 1 {
          var timeDiff := endTime - entry.time;
          var businessTimeDiff := Min(timeDiff, total - up);
          up := up + (if entry.status == Active then businessTimeDiff else 0);
        }
        prev := Some(entry);
      }
    }
    assert up == UptimeSeconds(statusData, ctx);
    var down := total - up;
    uptime, downtime := InUnit(up, interval), InUnit(down, interval);
  }

  /** Observations in ascending order of instant. */
  predicate Sorted(obs: seq<Observation>)
  {
    forall i, j :: 0 <= i < j < |obs| ==> obs[i].time <= obs[j].time
  }

  /** Observations sorted by instant, all inside the window [start, end]. */
  predicate SortedInWindow(obs: seq<Observation>, start: int, end: int)
  {
    && (forall i :: 0 <= i < |obs| ==> start <= obs[i].time <= end)
    && Sorted(obs)
  }

  /** Time counts as uptime only after an active observation: all-inactive data gives no uptime. */
  lemma {:induction false} AllInactiveCarry(obs: seq<Observation>, n: nat, ctx: Context)
    requires n <= |obs|
    requires forall i :: 0 <= i < |obs| ==> obs[i].status == Inactive
    ensures Interpolate(obs, n, ctx).uptime == 0
    ensures Interpolate(obs, n, ctx).prev.Some? ==> Interpolate(obs, n, ctx).prev.value.status == Inactive
  {
    if n > 0 {
      AllInactiveCarry(obs, n - 1, ctx);
    }
  }

  /** A store that only ever reported inactive has no uptime, whatever its schedule. */
  lemma AllInactiveNoUptime(obs: seq<Observation>, ctx: Context)
    requires forall i :: 0 <= i < |obs| ==> obs[i].status == Inactive
    ensures UptimeSeconds(obs, ctx) == 0
  {
    AllInactiveCarry(obs, |obs|, ctx);
  }

  /** Before the first retained observation the loop has added nothing and remembers nothing. */
  lemma {:induction false} SkippedPrefixCarry(obs: seq<Observation>, n: nat, ctx: Context)
    requires n <= |obs|
    requires forall i :: 0 <= i < n ==> !Retained(obs[i], ctx)
    ensures Interpolate(obs, n, ctx) == Carry(0, None)
  {
    if n > 0 {
      SkippedPrefixCarry(obs, n - 1, ctx);
    }
  }

  /**
   * Backward extrapolation needs observation 0 itself: when the polls before
   * j are all outside business hours, the first retained poll j (not the
   * last) adds no time and only becomes the previous observation.
   */
  lemma SkippedFirstSuppressesBackward(obs: seq<Observation>, j: nat, ctx: Context)
    requires 0 < j < |obs| - 1
    requires forall i :: 0 <= i < j ==> !Retained(obs[i], ctx)
    requires Retained(obs[j], ctx)
    ensures Interpolate(obs, j + 1, ctx) == Carry(0, Some(obs[j]))
  {
    SkippedPrefixCarry(obs, j, ctx);
  }

  /** Backward extrapolation from the window start is capped at the scheduled total. */
  lemma BackwardCapped(obs: seq<Observation>, ctx: Context)
    requires |obs| >= 2 && 0 <= ctx.total
    ensures Interpolate(obs, 1, ctx).uptime <= ctx.total
  {
    assert Interpolate(obs, 1, ctx) == Step(Carry(0, None), obs, 0, ctx);
  }

  /**
   * For sorted observations inside the window and a non-negative schedule,
   * the loop never drives uptime below zero: the previous observation is an
   * earlier one, so every gap is non-negative, and both caps stay at or
   * above zero.
   */
  lemma {:induction false} CarryNonNeg(obs: seq<Observation>, n: nat, ctx: Context)
    requires n <= |obs|
    requires SortedInWindow(obs, ctx.start, ctx.end) && 0 <= ctx.total
    ensures 0 <= Interpolate(obs, n, ctx).uptime
    ensures Interpolate(obs, n, ctx).prev.Some? ==>
              exists k :: 0 <= k < n && Interpolate(obs, n, ctx).prev.value == obs[k]
  {
    if n > 0 {
      CarryNonNeg(obs, n - 1, ctx);
    }
  }

  /** Uptime is never negative for sorted observations inside the window, whatever the rules. */
  lemma UptimeNonNegative(obs: seq<Observation>, ctx: Context)
    requires SortedInWindow(obs, ctx.start, ctx.end) && 0 <= ctx.total
    ensures 0 <= UptimeSeconds(obs, ctx)
  {
    CarryNonNeg(obs, |obs|, ctx);
  }

  /** The forward cap: when the last observation is retained and active, uptime ends within the schedule. */
  lemma ForwardCapKeepsWithinSchedule(obs: seq<Observation>, ctx: Context)
    requires |obs| >= 2
    requires Retained(obs[|obs| - 1], ctx) && obs[|obs| - 1].status == Active
    ensures UptimeSeconds(obs, ctx) <= ctx.total
  {
    var c := Interpolate(obs, |obs| - 1, ctx);
    assert Interpolate(obs, |obs|, ctx) == Step(c, obs, |obs| - 1, ctx);
  }

  /**
   * For a 24x7 store with sorted observations inside the window, the carry
   * after n passes holds uptime between 0 and the time since the window
   * start of the last observation passed, and within the schedule at the end.
   */
  lemma {:induction false} AlwaysOpenCarryBounds(obs: seq<Observation>, n: nat, ctx: Context)
    requires 1 <= n <= |obs|
    requires ctx.rules == [] && ctx.total == ctx.end - ctx.start
    requires SortedInWindow(obs, ctx.start, ctx.end)
    ensures Interpolate(obs, n, ctx).prev == Some(obs[n - 1])
    ensures 0 <= Interpolate(obs, n, ctx).uptime
    ensures n < |obs| ==> Interpolate(obs, n, ctx).uptime <= obs[n - 1].time - ctx.start
    ensures n == |obs| ==> Interpolate(obs, n, ctx).uptime <= ctx.total
  {
    if n > 1 {
      AlwaysOpenCarryBounds(obs, n - 1, ctx);
    }
  }

  /** A 24x7 store's uptime lies within [0, scheduled time]: its downtime is never negative. */
  lemma AlwaysOpenUptimeWithinSchedule(obs: seq<Observation>, ctx: Context)
    requires ctx.rules == [] && ctx.total == ctx.end - ctx.start
    requires SortedInWindow(obs, ctx.start, ctx.end) && ctx.start <= ctx.end
    ensures 0 <= UptimeSeconds(obs, ctx) <= ctx.total
  {
    if |obs| >= 2 {
      AlwaysOpenCarryBounds(obs, |obs|, ctx);
    }
  }

  lemma {:induction false} AlwaysOpenAllActiveCarry(obs: seq<Observation>, n: nat, ctx: Context)
    requires 1 <= n <= |obs|
    requires ctx.rules == [] && ctx.total == ctx.end - ctx.start
    requires SortedInWindow(obs, ctx.start, ctx.end)
    requires forall i :: 0 <= i < |obs| ==> obs[i].status == Active
    ensures Interpolate(obs, n, ctx).prev == Some(obs[n - 1])
    ensures n < |obs| ==> Interpolate(obs, n, ctx).uptime == obs[n - 1].time - ctx.start
    ensures n == |obs| ==> Interpolate(obs, n, ctx).uptime == ctx.total
  {
    if n > 1 {
      AlwaysOpenAllActiveCarry(obs, n - 1, ctx);
    }
  }

  /** A 24x7 store that only ever reported active is up for the whole window. */
  lemma AlwaysOpenAllActiveFullUptime(obs: seq<Observation>, ctx: Context)
    requires |obs| >= 1
    requires ctx.rules == [] && ctx.total == ctx.end - ctx.start
    requires SortedInWindow(obs, ctx.start, ctx.end)
    requires forall i :: 0 <= i < |obs| ==> obs[i].status == Active
    ensures UptimeSeconds(obs, ctx) == ctx.total
  {
    if |obs| >= 2 {
      AlwaysOpenAllActiveCarry(obs, |obs|, ctx);
    }
  }

  /** The sequence without its k-th element. */
  function Without(obs: seq<Observation>, k: nat): (r: seq<Observation>)
    requires k < |obs|
    ensures |r| == |obs| - 1
    ensures forall i :: 0 <= i < k ==> r[i] == obs[i]
    ensures forall i :: k <= i < |r| ==> r[i] == obs[i + 1]
  {
    obs[..k] + obs[k + 1..]
  }

  lemma {:induction false} WithoutCarry(obs: seq<Observation>, k: nat, n: nat, ctx: Context)
    requires 0 < k < |obs| - 1 && !Retained(obs[k], ctx)
    requires n <= |obs|
    ensures n <= k ==> Interpolate(Without(obs, k), n, ctx) == Interpolate(obs, n, ctx)
    ensures n > k ==> Interpolate(Without(obs, k), n - 1, ctx) == Interpolate(obs, n, ctx)
  {
    if n > 0 {
      WithoutCarry(obs, k, n - 1, ctx);
    }
  }

  /**
   * An interior observation outside business hours is skipped without a
   * trace: it neither adds time nor becomes the previous observation, so
   * removing it leaves the uptime as it is.
   */
  lemma SkippedObservationIsInvisible(obs: seq<Observation>, k: nat, ctx: Context)
    requires 0 < k < |obs| - 1 && !Retained(obs[k], ctx)
    ensures UptimeSeconds(Without(obs, k), ctx) == UptimeSeconds(obs, ctx)
  {
    WithoutCarry(obs, k, |obs|, ctx);
  }

  /**
   * With no final clamp, uptime can exceed the scheduled time. Monday
   * (day 4) opens 09:00-09:10 and 09:50-10:00; the window 09:05-10:05 (UTC =
   * local) has 15 scheduled minutes. An active poll at 09:06 and an
   * inactive one at 09:55 give 1 + 49 = 50 minutes of uptime, so the
   * downtime is -35 minutes.
   */
  lemma UptimeMayExceedSchedule()
    ensures var rules := [Rule(0, 9 * 3600, 9 * 3600 + 600), Rule(0, 9 * 3600 + 3000, 10 * 3600)];
            var start := Midnight(4) + 9 * 3600 + 300;
            var end := Midnight(4) + 10 * 3600 + 300;
            var obs := [Observation("s", Midnight(4) + 9 * 3600 + 360, Active),
                        Observation("s", Midnight(4) + 9 * 3600 + 3300, Inactive)];
            && ScheduledSeconds(start, end, rules, 0) == 900
            && UptimeSeconds(obs, Context(start, end, rules, 0, 900)) == 3000
  {
    var rules := [Rule(0, 9 * 3600, 9 * 3600 + 600), Rule(0, 9 * 3600 + 3000, 10 * 3600)];
    var start := Midnight(4) + 9 * 3600 + 300;
    var end := Midnight(4) + 10 * 3600 + 300;
    assert DaySeconds(rules[..1], start, end) == 300;
    assert DaySeconds(rules, start, end) == 900;
    assert WalkSeconds(rules, Midnight(5), end) == 0;
    var obs := [Observation("s", Midnight(4) + 9 * 3600 + 360, Active),
                Observation("s", Midnight(4) + 9 * 3600 + 3300, Inactive)];
    var ctx := Context(start, end, rules, 0, 900);
    assert Covers(rules[0], obs[0].time);
    assert Covers(rules[1], obs[1].time);
    assert Interpolate(obs, 1, ctx).uptime == 60;
  }
}
