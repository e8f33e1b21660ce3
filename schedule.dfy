/**
 * The schedule model of the uptime report: a store's weekly business-hours
 * rules, the number of scheduled seconds inside a local time interval
 * (a day-by-day walk over the local calendar), and the test whether one
 * local instant falls inside business hours.
 *
 * Instants are integer seconds on the store's LOCAL timeline; day number
 * 0 is 1970-01-01, a Thursday. Weekdays are numbered 0 = Monday ... 6 = Sunday.
 */
module Schedule {

  /** Seconds in one calendar day. */
  const SecondsPerDay: int := 86400

  /** A time of day, in seconds since local midnight (a time of day never reaches 24:00). */
  type TimeOfDay = t: int | 0 <= t < SecondsPerDay

  /** One business-hours row of a store: open from `start` to `end` on `weekday`. */
  datatype Rule = Rule(weekday: int, start: TimeOfDay, end: TimeOfDay)

  function Min(a: int, b: int): int { if a <= b then a else b }
  function Max(a: int, b: int): int { if a >= b then a else b }

  /** The local calendar date of a local instant, as a day number (floor division). */
  function DayOf(t: int): int { t / SecondsPerDay }

  /** The local instant at which day number `day` begins. */
  function Midnight(day: int): (m: int)
    ensures DayOf(m) == day
  {
    day * SecondsPerDay
  }

  /** Weekday of a day number, 0 = Monday; day 0 (1970-01-01) was a Thursday. */
  function WeekdayOf(day: int): (w: int)
    ensures 0 <= w < 7
  {
    (day + 3) % 7
  }

  /** Day 4 (1970-01-05) was a Monday, and each date's weekday follows the previous one's. */
  lemma WeekdayNumbering(d: int)
    ensures WeekdayOf(4) == 0
    ensures WeekdayOf(d + 1) == (WeekdayOf(d) + 1) % 7
  {
  }

  /** The start of the local day after the one holding `cursor`: where the day walk moves next. */
  function NextMidnight(cursor: int): (m: int)
    ensures m == Midnight(DayOf(m))
    ensures DayOf(m) == DayOf(cursor) + 1
    ensures cursor < m <= cursor + SecondsPerDay
  {
    Midnight(DayOf(cursor) + 1)
  }

  /** A rule whose end is before its start runs past midnight into the next date. */
  predicate SpansMidnight(r: Rule) { r.end < r.start }

  /** Where rule `r`, instantiated on date `day`, opens. */
  function OpenAt(r: Rule, day: int): int { Midnight(day) + r.start }

  /** Where rule `r`, instantiated on date `day`, closes: one day later when it spans midnight. */
  function CloseAt(r: Rule, day: int): (c: int)
    ensures c - Midnight(DayOf(c)) == r.end
    ensures OpenAt(r, day) <= c < OpenAt(r, day) + SecondsPerDay
    ensures SpansMidnight(r) <==> Midnight(day + 1) <= c
  {
    Midnight(day) + r.end + (if SpansMidnight(r) then SecondsPerDay else 0)
  }

  /**
   * Seconds in which the interval [cursor, end] meets rule `r` instantiated
   * on the date of `cursor`; zero when they do not meet.
   */
  function Overlap(r: Rule, cursor: int, end: int): (s: int)
    ensures 0 <= s
    ensures s <= Max(0, end - cursor)
    ensures s <= CloseAt(r, DayOf(cursor)) - OpenAt(r, DayOf(cursor))
    ensures s > 0 <==> && cursor < end && cursor < CloseAt(r, DayOf(cursor))
                       && OpenAt(r, DayOf(cursor)) < end && OpenAt(r, DayOf(cursor)) < CloseAt(r, DayOf(cursor))
  {
    var day := DayOf(cursor);
    var intervalStart := Max(cursor, OpenAt(r, day));
    var intervalEnd := Min(end, CloseAt(r, day));
    if intervalStart < intervalEnd then intervalEnd - intervalStart else 0
  }

  /** What rule `r` adds on the date of `cursor`: its overlap if its weekday is that date's. */
  function Contribution(r: Rule, cursor: int, end: int): int
  {
    if r.weekday == WeekdayOf(DayOf(cursor)) then Overlap(r, cursor, end) else 0
  }

  /**
   * The seconds one pass of the day walk adds: the contributions of all
   * rules, summed in rule order, with no merging of overlapping rules.
   */
  function DaySeconds(rules: seq<Rule>, cursor: int, end: int): (s: int)
    ensures 0 <= s
  {
    if rules == [] then 0
    else DaySeconds(rules[..|rules| - 1], cursor, end) + Contribution(rules[|rules| - 1], cursor, end)
  }

  /**
   * The day walk: from the date of `cursor` through the date of `end`,
   * each pass adds that date's rule overlaps and moves the cursor to the
   * next local midnight.
   */
  function WalkSeconds(rules: seq<Rule>, cursor: int, end: int): int
    decreases DayOf(end) - DayOf(cursor) + 1
  {
    if DayOf(cursor) > DayOf(end) then 0
    else DaySeconds(rules, cursor, end) + WalkSeconds(rules, NextMidnight(cursor), end)
  }

  /** Scheduled seconds in the local interval [start, end]; a 24x7 store is open all of it. */
  function BusinessSeconds(start: int, end: int, rules: seq<Rule>, is24x7: bool): int
  {
    if is24x7 then end - start else WalkSeconds(rules, start, end)
  }

  /** Rule `r` covers local instant `t`: same weekday, and open <= t <= close on t's date. */
  predicate Covers(r: Rule, t: int)
  {
    r.weekday == WeekdayOf(DayOf(t)) && OpenAt(r, DayOf(t)) <= t <= CloseAt(r, DayOf(t))
  }

  /**
   * The scheduled time in the local interval [start, end], computed as the
   * source does: a 24x7 store counts the whole interval, otherwise a loop
   * over the local dates with an inner loop over the rules.
   */
  method CalculateBusinessTime(start: int, end: int, rules: seq<Rule>, is24x7: bool) returns (total: int)
    ensures total == BusinessSeconds(start, end, rules, is24x7)
    ensures is24x7 ==> total == end - start
    ensures !is24x7 ==> 0 <= total
  {
    if is24x7 {
      return end - start;
    }
    total := 0;
    var current := start;
    while DayOf(current) <= DayOf(end)
      invariant 0 <= total
      invariant total + WalkSeconds(rules, current, end) == WalkSeconds(rules, start, end)
      decreases DayOf(end) - DayOf(current)
    {
      var day := DayOf(current);
      var dayOfWeek := WeekdayOf(day);
      ghost var before := total;
      for j := 0 to |rules|
        invariant total == before + DaySeconds(rules[..j], current, end)
      {
        var hours := rules[j];
        assert rules[..j + 1][..j] == rules[..j];
        if hours.weekday == dayOfWeek {
          var businessStart := Midnight(day) + hours.start;
          var businessEnd := Midnight(day) + hours.end;
          if hours.end < hours.start {
            businessEnd := businessEnd + SecondsPerDay;
          }
          var intervalStart := Max(current, businessStart);
          var intervalEnd := Min(end, businessEnd);
          if intervalStart < intervalEnd {
            total := total + (intervalEnd - intervalStart);
          }
        }
      }
      assert rules[..|rules|] == rules;
      current := Midnight(day + 1);
    }
  }

  /**
   * Whether local instant `t` is inside business hours: some rule of t's
   * weekday has open <= t <= close on t's own date. A rule of the previous
   * weekday that runs past midnight is not consulted.
   */
  function IsWithinBusinessHours(t: int, rules: seq<Rule>): (b: bool)
    ensures b <==> exists i :: 0 <= i < |rules| && Covers(rules[i], t)
  {
    if rules == [] then false
    else
      var hours := rules[0];
      var day := DayOf(t);
      var businessStart := Midnight(day) + hours.start;
      var businessEnd := Midnight(day) + hours.end + (if hours.end < hours.start then SecondsPerDay else 0);
      if hours.weekday == WeekdayOf(day) && businessStart <= t <= businessEnd then true
      else
        var rest := IsWithinBusinessHours(t, rules[1..]);
        assert rest <==> exists i :: 1 <= i < |rules| && Covers(rules[i], t) by {
          forall i | 1 <= i < |rules| ensures rules[1..][i - 1] == rules[i] {}
        }
        rest
  }

  /** The walk never yields a negative total. */
  lemma {:induction false} WalkNonNegative(rules: seq<Rule>, cursor: int, end: int)
    ensures 0 <= WalkSeconds(rules, cursor, end)
    decreases DayOf(end) - DayOf(cursor) + 1
  {
    if DayOf(cursor) <= DayOf(end) {
      WalkNonNegative(rules, NextMidnight(cursor), end);
    }
  }

  /** When no rule's weekday is the weekday of any visited date, nothing is scheduled. */
  lemma {:induction false} WalkZeroWithoutMatchingWeekday(rules: seq<Rule>, cursor: int, end: int)
    requires forall d, i :: DayOf(cursor) <= d <= DayOf(end) && 0 <= i < |rules| ==> rules[i].weekday != WeekdayOf(d)
    ensures WalkSeconds(rules, cursor, end) == 0
    decreases DayOf(end) - DayOf(cursor) + 1
  {
    if DayOf(cursor) <= DayOf(end) {
      DaySecondsZeroWithoutMatch(rules, cursor, end);
      WalkZeroWithoutMatchingWeekday(rules, NextMidnight(cursor), end);
    }
  }

  lemma {:induction false} DaySecondsZeroWithoutMatch(rules: seq<Rule>, cursor: int, end: int)
    requires forall i :: 0 <= i < |rules| ==> rules[i].weekday != WeekdayOf(DayOf(cursor))
    ensures DaySeconds(rules, cursor, end) == 0
  {
    if rules != [] {
      DaySecondsZeroWithoutMatch(rules[..|rules| - 1], cursor, end);
    }
  }

  /** One pass adds the rules of two lists independently: rules are summed, never merged. */
  lemma {:induction false} DaySecondsAppend(a: seq<Rule>, b: seq<Rule>, cursor: int, end: int)
    ensures DaySeconds(a + b, cursor, end) == DaySeconds(a, cursor, end) + DaySeconds(b, cursor, end)
  {
    if b == [] {
      assert a + b == a;
    } else {
      var b' := b[..|b| - 1];
      assert (a + b)[..|a + b| - 1] == a + b';
      DaySecondsAppend(a, b', cursor, end);
    }
  }

  /** The whole walk is additive in the rule list. */
  lemma {:induction false} WalkAppend(a: seq<Rule>, b: seq<Rule>, cursor: int, end: int)
    ensures WalkSeconds(a + b, cursor, end) == WalkSeconds(a, cursor, end) + WalkSeconds(b, cursor, end)
    decreases DayOf(end) - DayOf(cursor) + 1
  {
    if DayOf(cursor) <= DayOf(end) {
      DaySecondsAppend(a, b, cursor, end);
      WalkAppend(a, b, NextMidnight(cursor), end);
    }
  }

  /** Listing the same hours twice counts them twice: overlapping rules are double-counted. */
  lemma DuplicatedRulesCountTwice(rules: seq<Rule>, start: int, end: int)
    ensures BusinessSeconds(start, end, rules + rules, false) == 2 * BusinessSeconds(start, end, rules, false)
  {
    WalkAppend(rules, rules, start, end);
  }

  /**
   * Overlapping rules can schedule more than the interval's length: two
   * copies of a Monday 09:00-10:00 rule (day 4 was a Monday) over the local
   * interval Monday 09:00-10:00, one hour long, give two hours.
   */
  lemma OverlappingRulesExceedInterval()
    ensures var r := Rule(0, 9 * 3600, 10 * 3600);
            BusinessSeconds(Midnight(4) + 9 * 3600, Midnight(4) + 10 * 3600, [r, r], false) == 7200
  {
    var r := Rule(0, 9 * 3600, 10 * 3600);
    var start := Midnight(4) + 9 * 3600;
    var end := Midnight(4) + 10 * 3600;
    assert DaySeconds([r], start, end) == 3600;
    assert DaySeconds([r, r], start, end) == 7200;
    assert WalkSeconds([r, r], Midnight(5), end) == 0;
  }

  /**
   * A Friday 22:00-02:00 rule and the local interval Friday 21:00 to
   * Saturday 03:00 (day 1 was a Friday): the rule contributes 22:00-02:00,
   * four hours, all counted on the Friday pass.
   */
  lemma MidnightSpanningExample()
    ensures BusinessSeconds(Midnight(1) + 21 * 3600, Midnight(2) + 3 * 3600, [Rule(4, 22 * 3600, 2 * 3600)], false)
         == 4 * 3600
  {
    var rules := [Rule(4, 22 * 3600, 2 * 3600)];
    var end := Midnight(2) + 3 * 3600;
    assert DaySeconds(rules, Midnight(1) + 21 * 3600, end) == 4 * 3600;
    assert DaySeconds(rules, Midnight(2), end) == 0;
    assert WalkSeconds(rules, Midnight(3), end) == 0;
  }

  /**
   * The previous weekday's midnight-spanning rule is never consulted: with
   * a Friday 22:00-02:00 rule, Saturday 00:00-03:00 counts as closed and
   * Saturday 01:00 is outside business hours, though the Friday rule
   * instantiated on Friday covers that instant.
   */
  lemma PreviousDaySpanIgnored()
    ensures BusinessSeconds(Midnight(2), Midnight(2) + 3 * 3600, [Rule(4, 22 * 3600, 2 * 3600)], false) == 0
    ensures OpenAt(Rule(4, 22 * 3600, 2 * 3600), 1) <= Midnight(2) + 3600 <= CloseAt(Rule(4, 22 * 3600, 2 * 3600), 1)
    ensures !IsWithinBusinessHours(Midnight(2) + 3600, [Rule(4, 22 * 3600, 2 * 3600)])
  {
    var rules := [Rule(4, 22 * 3600, 2 * 3600)];
    var end := Midnight(2) + 3 * 3600;
    assert DaySeconds(rules, Midnight(2), end) == 0;
    assert WalkSeconds(rules, Midnight(3), end) == 0;
    assert !Covers(rules[0], Midnight(2) + 3600);
  }
}
