/**
 * The per-store aggregator: three trailing windows from one reference
 * instant, the observations of each window (the store's rows with
 * start <= instant <= end, ascending by instant), the interpolator run on
 * each, and one report row, all zeros when the store's zone is unknown.
 */
module Report {
  import opened Schedule
  import opened Interpolator

  /** Trailing window lengths in seconds. */
  const HourSpan: int := 3600
  const DaySpan: int := SecondsPerDay
  const WeekSpan: int := 7 * SecondsPerDay

  /** One output row: hour columns in minutes, day and week columns in hours. */
  datatype ReportRow = ReportRow(
    storeId: string,
    uptimeLastHour: real, uptimeLastDay: real, uptimeLastWeek: real,
    downtimeLastHour: real, downtimeLastDay: real, downtimeLastWeek: real)

  /** The row emitted when computing a store's figures fails. */
  function ZeroRow(storeId: string): ReportRow
  {
    ReportRow(storeId, 0.0, 0.0, 0.0, 0.0, 0.0, 0.0)
  }

  /** A row of the status table answers the window query for `storeId` and [lo, hi]. */
  predicate InWindow(o: Observation, storeId: string, lo: int, hi: int)
  {
    o.storeId == storeId && lo <= o.time <= hi
  }

  /** The rows of `table` that answer the query, in table order; every matching row is kept, duplicates included. */
  function Filter(table: seq<Observation>, storeId: string, lo: int, hi: int): (r: seq<Observation>)
    ensures forall i :: 0 <= i < |r| ==> InWindow(r[i], storeId, lo, hi)
    ensures forall o :: o in r <==> o in table && InWindow(o, storeId, lo, hi)
    ensures forall o :: multiset(r)[o] == (if InWindow(o, storeId, lo, hi) then multiset(table)[o] else 0)
  {
    if table == [] then []
    else
      var rest := Filter(table[1..], storeId, lo, hi);
      assert table == [table[0]] + table[1..];
      if InWindow(table[0], storeId, lo, hi) then [table[0]] + rest else rest
  }

  /** Inserts `o` into a sorted sequence before the first later-or-equal instant. */
  function Insert(o: Observation, s: seq<Observation>): (r: seq<Observation>)
    requires Sorted(s)
    ensures Sorted(r)
    ensures multiset(r) == multiset(s) + multiset{o}
  {
    if s == [] then [o]
    else if o.time <= s[0].time then
      ConsSorted(o, s);
      [o] + s
    else
      var rest := Insert(o, s[1..]);
      assert s == [s[0]] + s[1..];
      InsertLowerBound(o, s[1..], rest, s[0].time);
      ConsSorted(s[0], rest);
      [s[0]] + rest
  }

  /** Putting an element no later than all of a sorted sequence in front keeps it sorted. */
  lemma ConsSorted(x: Observation, s: seq<Observation>)
    requires Sorted(s)
    requires forall j :: 0 <= j < |s| ==> x.time <= s[j].time
    ensures Sorted([x] + s)
  {
    var r := [x] + s;
    forall i, j | 0 <= i < j < |r| ensures r[i].time <= r[j].time {
      assert r[j] == s[j - 1];
      if i > 0 { assert r[i] == s[i - 1]; }
    }
  }

  /** A lower bound of `o` and of every element of `s` bounds every element of a permutation of them. */
  lemma InsertLowerBound(o: Observation, s: seq<Observation>, rest: seq<Observation>, bound: int)
    requires multiset(rest) == multiset(s) + multiset{o}
    requires bound <= o.time
    requires forall i :: 0 <= i < |s| ==> bound <= s[i].time
    ensures forall j :: 0 <= j < |rest| ==> bound <= rest[j].time
  {
    forall j | 0 <= j < |rest| ensures bound <= rest[j].time {
      assert rest[j] in multiset(rest);
      if rest[j] != o {
        assert rest[j] in multiset(s);
        var k :| 0 <= k < |s| && s[k] == rest[j];
      }
    }
  }

  /**
   * Ascending by instant (the query's order by). The insertion sort is
   * stable: rows with equal instants keep their table order, one of the
   * orders the SQL query may return, since it leaves ties unspecified.
   */
  function SortByTime(s: seq<Observation>): (r: seq<Observation>)
    ensures Sorted(r)
    ensures multiset(r) == multiset(s)
  {
    if s == [] then []
    else
      assert s == [s[0]] + s[1..];
      Insert(s[0], SortByTime(s[1..]))
  }

  /**
   * The window query: the rows of `storeId` with lo <= instant <= hi, both
   * bounds inclusive, in ascending order of instant.
   */
  function SelectWindow(table: seq<Observation>, storeId: string, lo: int, hi: int): (r: seq<Observation>)
    ensures Sorted(r)
    ensures forall i :: 0 <= i < |r| ==> InWindow(r[i], storeId, lo, hi)
    ensures forall o :: o in r <==> o in table && InWindow(o, storeId, lo, hi)
    ensures multiset(r) == multiset(Filter(table, storeId, lo, hi))
  {
    var f := Filter(table, storeId, lo, hi);
    var r := SortByTime(f);
    SameElements(r, f);
    r
  }

  /** Two sequences with the same multiset hold the same elements. */
  lemma SameElements(r: seq<Observation>, f: seq<Observation>)
    requires multiset(r) == multiset(f)
    ensures forall o :: o in r <==> o in f
  {
    forall o ensures o in r <==> o in f {
      assert o in r <==> o in multiset(r);
      assert o in f <==> o in multiset(f);
    }
  }

  /** The selected observations lie in the window, in order: what the interpolator's bounds need. */
  lemma SelectedAreSortedInWindow(table: seq<Observation>, storeId: string, lo: int, hi: int)
    ensures SortedInWindow(SelectWindow(table, storeId, lo, hi), lo, hi)
  {
  }

  /** Uptime seconds of the window [lo, hi]; zero when nothing of it is scheduled. */
  function WindowUptime(table: seq<Observation>, storeId: string, lo: int, hi: int,
                        rules: seq<Rule>, offset: int): int
  {
    var total := ScheduledSeconds(lo, hi, rules, offset);
    if total == 0 then 0
    else UptimeSeconds(SelectWindow(table, storeId, lo, hi), Context(lo, hi, rules, offset, total))
  }

  /** For a 24x7 store, the uptime of every window lies within the window. */
  lemma AlwaysOpenWindowBounds(table: seq<Observation>, storeId: string, lo: int, hi: int, offset: int)
    requires lo <= hi
    ensures 0 <= WindowUptime(table, storeId, lo, hi, [], offset) <= hi - lo
  {
    SelectedAreSortedInWindow(table, storeId, lo, hi);
    var total := ScheduledSeconds(lo, hi, [], offset);
    if total != 0 {
      AlwaysOpenUptimeWithinSchedule(SelectWindow(table, storeId, lo, hi), Context(lo, hi, [], offset, total));
    }
  }

  /**
   * Uptime of every window is non-negative, with or without rules: the
   * query returns sorted observations inside the window and the scheduled
   * total is never negative.
   */
  lemma WindowUptimeNonNegative(table: seq<Observation>, storeId: string, lo: int, hi: int,
                                rules: seq<Rule>, offset: int)
    requires lo <= hi
    ensures 0 <= WindowUptime(table, storeId, lo, hi, rules, offset)
  {
    SelectedAreSortedInWindow(table, storeId, lo, hi);
    if rules != [] {
      WalkNonNegative(rules, lo + offset, hi + offset);
    }
    var total := ScheduledSeconds(lo, hi, rules, offset);
    if total != 0 {
      UptimeNonNegative(SelectWindow(table, storeId, lo, hi), Context(lo, hi, rules, offset, total));
    }
  }

  /**
   * The row of one store at reference instant `now`: windows [now - 1h, now],
   * [now - 1d, now] and [now - 7d, now]; an unknown zone name is the failure
   * that yields the all-zero row. `zones` stands for the zone database,
   * giving each known zone name a fixed offset in seconds.
   */
  method ComputeUptimeDowntime(storeId: string, now: int, zoneName: string, zones: map<string, int>,
                               businessHours: seq<Rule>, table: seq<Observation>)
    returns (row: ReportRow)
    ensures row.storeId == storeId
    ensures zoneName !in zones ==> row == ZeroRow(storeId)
    ensures zoneName in zones ==>
              var offset := zones[zoneName];
              && row.uptimeLastHour == InUnit(WindowUptime(table, storeId, now - HourSpan, now, businessHours, offset), Hour)
              && row.uptimeLastDay == InUnit(WindowUptime(table, storeId, now - DaySpan, now, businessHours, offset), Day)
              && row.uptimeLastWeek == InUnit(WindowUptime(table, storeId, now - WeekSpan, now, businessHours, offset), Week)
    ensures zoneName in zones ==>
              var offset := zones[zoneName];
              && row.uptimeLastHour + row.downtimeLastHour == InUnit(ScheduledSeconds(now - HourSpan, now, businessHours, offset), Hour)
              && row.uptimeLastDay + row.downtimeLastDay == InUnit(ScheduledSeconds(now - DaySpan, now, businessHours, offset), Day)
              && row.uptimeLastWeek + row.downtimeLastWeek == InUnit(ScheduledSeconds(now - WeekSpan, now, businessHours, offset), Week)
    ensures zoneName in zones ==>
              && 0.0 <= row.uptimeLastHour
              && 0.0 <= row.uptimeLastDay
              && 0.0 <= row.uptimeLastWeek
    ensures zoneName in zones && businessHours == [] ==>
              && row.uptimeLastHour + row.downtimeLastHour == 60.0
              && row.uptimeLastDay + row.downtimeLastDay == 24.0
              && row.uptimeLastWeek + row.downtimeLastWeek == 168.0
              && 0.0 <= row.uptimeLastHour <= 60.0
              && 0.0 <= row.uptimeLastDay <= 24.0
              && 0.0 <= row.uptimeLastWeek <= 168.0
  {
    if zoneName !in zones {
      return ZeroRow(storeId);
    }
    var offset := zones[zoneName];

    var hourAgo := now - HourSpan;
    var dayAgo := now - DaySpan;
    var weekAgo := now - WeekSpan;

    var hourData := SelectWindow(table, storeId, hourAgo, now);
    var dayData := SelectWindow(table, storeId, dayAgo, now);
    var weekData := SelectWindow(table, storeId, weekAgo, now);

    var uptimeLastHour, downtimeLastHour := CalculateUptimeDowntime(hourData, hourAgo, now, businessHours, offset, Hour);
    var uptimeLastDay, downtimeLastDay := CalculateUptimeDowntime(dayData, dayAgo, now, businessHours, offset, Day);
    var uptimeLastWeek, downtimeLastWeek := CalculateUptimeDowntime(weekData, weekAgo, now, businessHours, offset, Week);

    row := ReportRow(storeId, uptimeLastHour, uptimeLastDay, uptimeLastWeek,
                     downtimeLastHour, downtimeLastDay, downtimeLastWeek);

    WindowUptimeNonNegative(table, storeId, hourAgo, now, businessHours, offset);
    WindowUptimeNonNegative(table, storeId, dayAgo, now, businessHours, offset);
    WindowUptimeNonNegative(table, storeId, weekAgo, now, businessHours, offset);
    if businessHours == [] {
      AlwaysOpenWindowBounds(table, storeId, hourAgo, now, offset);
      AlwaysOpenWindowBounds(table, storeId, dayAgo, now, offset);
      AlwaysOpenWindowBounds(table, storeId, weekAgo, now, offset);
    }
  }
}
