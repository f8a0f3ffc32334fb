/**
 * `EventDate.generate_dates` (events/models.py): expanding a recurrence rule
 * (start, end, frequency, interval) into concrete dates.
 *
 * Past the three early returns the source hands the rule to `dateutil.rrule`,
 * which follows section 3.3.10 of RFC 5545: candidates start at DTSTART and
 * advance by `interval` periods of the frequency; the list runs up to and
 * including UNTIL; a MONTHLY or YEARLY candidate whose day of the month does
 * not exist in its month (the 31st, or 29 February) is skipped, not clamped.
 */
module Recurrence {
  import opened Wrappers
  import opened Calendar

  /** `EventDate.YEARLY` .. `EventDate.DAILY`. */
  datatype Frequency = Yearly | Monthly | Weekly | Daily

  /** The integer stored in `EventDate.frequency` and passed to `rrule(freq=...)`. */
  function FrequencyCode(f: Frequency): int {
    match f
    case Yearly => 0
    case Monthly => 1
    case Weekly => 2
    case Daily => 3
  }

  /** How `rrule` reads that integer: 0 YEARLY, 1 MONTHLY, 2 WEEKLY, 3 DAILY. */
  function RruleFrequency(code: int): Option<Frequency> {
    if code == 0 then Some(Yearly)
    else if code == 1 then Some(Monthly)
    else if code == 2 then Some(Weekly)
    else if code == 3 then Some(Daily)
    else None
  }

  /** The constants of `EventDate` mean to `rrule` what their names say, and they are distinct. */
  lemma FrequencyCodesMatchRrule(f: Frequency, g: Frequency)
    ensures RruleFrequency(FrequencyCode(f)) == Some(f)
    ensures FrequencyCode(f) == FrequencyCode(g) ==> f == g
  {
  }

  type Interval = n: int | n >= 1 witness 1

  /** An `EventDate` row; `start`/`end` are `None` when the field is empty. */
  datatype EventDate = EventDate(start: Option<Day>, end: Option<Day>, frequency: Frequency, interval: Interval)

  /** No date of `r` lies before `lo` or after `hi`. */
  predicate WithinRange(r: seq<Date>, lo: Date, hi: Date) {
    forall i :: 0 <= i < |r| ==> !Before(r[i], lo) && !Before(hi, r[i])
  }

  /** Each date of `r` is before every later one (so no date repeats). */
  predicate StrictlyIncreasing(r: seq<Date>) {
    forall i, j :: 0 <= i < j < |r| ==> Before(r[i], r[j])
  }

  /** Consecutive dates of `r` are exactly `step` days apart. */
  predicate DaysApart(r: seq<Day>, step: int) {
    forall i :: 0 <= i < |r| - 1 ==> Ordinal(r[i + 1]) == Ordinal(r[i]) + step
  }

  /** Every date of `r` keeps day-of-month `day` and falls in a month `idx + k * step`, k >= 0. */
  predicate OnMonthGrid(r: seq<Date>, idx: int, day: int, step: int)
    requires step >= 1
  {
    forall i :: 0 <= i < |r| ==> r[i].day == day && idx <= MonthIndex(r[i]) && (MonthIndex(r[i]) - idx) % step == 0
  }

  /** Days between candidates for DAILY and WEEKLY rules. */
  function DayStep(f: Frequency, n: Interval): int {
    if f == Weekly then 7 * n else n
  }

  /** Months between candidates for MONTHLY and YEARLY rules. */
  function MonthStep(f: Frequency, n: Interval): int {
    if f == Yearly then 12 * n else n
  }

  /**
   * Candidates `d`, `d + step`, `d + 2*step`, ... up to and including `until`:
   * the DAILY and WEEKLY expansion.
   */
  function DaySteps(d: Day, until: Day, step: int): (r: seq<Day>)
    requires step >= 1
    ensures Ordinal(d) <= Ordinal(until) ==> |r| > 0 && r[0] == d
    ensures Ordinal(d) > Ordinal(until) ==> r == []
    ensures forall i :: 0 <= i < |r| ==> Ordinal(d) <= Ordinal(r[i]) <= Ordinal(until)
    ensures DaysApart(r, step)
    decreases Ordinal(until) - Ordinal(d)
  {
    if Ordinal(d) > Ordinal(until) then []
    else [d] + DaySteps(AddDays(d, step), until, step)
  }

  /** The candidate of month index `idx` (year `idx / 12`, month `idx % 12 + 1`) keeping `day`. */
  function Candidate(idx: int, day: int): (c: Date)
    ensures 1 <= c.month <= 12 && MonthIndex(c) == idx && c.day == day
  {
    Date(idx / 12, idx % 12 + 1, day)
  }

  /**
   * Candidates in months `idx`, `idx + step`, ... keeping day-of-month `day`,
   * skipping a candidate that is not a real date, up to and including `until`:
   * the MONTHLY and YEARLY expansion.
   */
  function MonthSteps(idx: int, day: int, until: Day, step: int): (r: seq<Day>)
    requires step >= 1
    decreases MonthIndex(until) - idx
  {
    if idx > MonthIndex(until) then []
    else
      var c := Candidate(idx, day);
      var rest := MonthSteps(idx + step, day, until, step);
      if ValidDate(c) && !Before(until, c) then [c] + rest else rest
  }

  /**
   * `EventDate.generate_dates`: nothing without a start; only the start without
   * an end or when the end precedes the start; otherwise the rrule expansion,
   * which begins at the start, stays within [start, end] and never repeats a date.
   */
  function GenerateDates(e: EventDate): (r: seq<Day>)
    ensures e.start == None ==> r == []
    ensures e.start.Some? && (e.end == None || Before(e.end.value, e.start.value)) ==> r == [e.start.value]
    ensures e.start.Some? && e.end.Some? && !Before(e.end.value, e.start.value) ==>
      |r| > 0 && r[0] == e.start.value && WithinRange(r, e.start.value, e.end.value) && StrictlyIncreasing(r)
  {
    match (e.start, e.end)
    case (None, _) => []
    case (Some(s), None) => [s]
    case (Some(s), Some(u)) =>
      if Before(u, s) then [s]
      else
        ExpandOrdered(s, u, e.frequency, e.interval);
        Expand(s, u, e.frequency, e.interval)
  }

  /** The rrule branch of `generate_dates`. */
  function Expand(s: Day, u: Day, f: Frequency, n: Interval): seq<Day> {
    if f == Daily || f == Weekly then DaySteps(s, u, DayStep(f, n))
    else MonthSteps(MonthIndex(s), s.day, u, MonthStep(f, n))
  }

  // ---------------------------------------------------------------------------
  // Arithmetic facts about Euclidean division by a positive step.

  /** Euclidean division has one quotient and one remainder. */
  lemma DivModUnique(x: int, d: int, q: int, m: int)
    requires d >= 1 && 0 <= m < d && x == q * d + m
    ensures x / d == q && x % d == m
  {
    var q', m' := x / d, x % d;
    assert (q - q') * d == m' - m;
    if q > q' {
      MulAtLeast(q - q', d);
    } else if q < q' {
      MulAtLeast(q' - q, d);
    }
  }

  lemma MulAtLeast(k: int, d: int)
    requires k >= 1 && d >= 1
    ensures k * d >= d
  {
    if k > 1 {
      MulAtLeast(k - 1, d);
      assert k * d == (k - 1) * d + d;
    }
  }

  lemma ShiftMod(x: int, step: int)
    requires step >= 1
    ensures (x - step) % step == x % step
  {
    var q, m := x / step, x % step;
    assert x - step == (q - 1) * step + m;
    DivModUnique(x - step, step, q - 1, m);
  }

  /** The first point of a grid that starts at `base` is on it. */
  lemma GridStart(a: int, base: int, step: int)
    requires step >= 1 && a == base
    ensures (a - base) % step == 0
  {
    DivModUnique(a - base, step, 0, 0);
  }

  /** A point one step further along a grid from `base + step` is on the grid from `base`. */
  lemma GridStep(a: int, base: int, step: int)
    requires step >= 1 && (a - (base + step)) % step == 0
    ensures (a - base) % step == 0
  {
    ShiftMod(a - base, step);
  }

  /** A positive multiple of `step` is at least `step`. */
  lemma PositiveMultiple(x: int, step: int)
    requires step >= 1 && x > 0 && x % step == 0
    ensures x >= step
  {
    var q := x / step;
    assert x == q * step;
    if q >= 1 {
      MulAtLeast(q, step);
    } else {
      assert false;
    }
  }

  // ---------------------------------------------------------------------------
  // The rrule expansion.

  /** The rrule branch starts at the start date, stays within [start, until] and is strictly increasing. */
  lemma {:induction false} ExpandOrdered(s: Day, u: Day, f: Frequency, n: Interval)
    requires !Before(u, s)
    ensures |Expand(s, u, f, n)| > 0 && Expand(s, u, f, n)[0] == s
    ensures WithinRange(Expand(s, u, f, n), s, u) && StrictlyIncreasing(Expand(s, u, f, n))
  {
    if f == Daily || f == Weekly {
      DayStepsOrdered(s, u, DayStep(f, n));
    } else {
      MonthStepsOrdered(s, u, MonthStep(f, n));
    }
  }

  lemma {:induction false} DayStepsOrdered(s: Day, u: Day, step: int)
    requires step >= 1 && !Before(u, s)
    ensures |DaySteps(s, u, step)| > 0 && DaySteps(s, u, step)[0] == s
    ensures WithinRange(DaySteps(s, u, step), s, u) && StrictlyIncreasing(DaySteps(s, u, step))
  {
    var r := DaySteps(s, u, step);
    OrdinalOrder(s, u);
    DayStepsIncreasing(s, u, step);
    forall i | 0 <= i < |r| ensures !Before(r[i], s) && !Before(u, r[i]) {
      OrdinalOrder(r[i], s);
      OrdinalOrder(u, r[i]);
    }
    forall i, j | 0 <= i < j < |r| ensures Before(r[i], r[j]) {
      OrdinalOrder(r[i], r[j]);
    }
  }

  lemma {:induction false} MonthStepsOrdered(s: Day, u: Day, step: int)
    requires step >= 1 && !Before(u, s)
    ensures |MonthSteps(MonthIndex(s), s.day, u, step)| > 0 && MonthSteps(MonthIndex(s), s.day, u, step)[0] == s
    ensures WithinRange(MonthSteps(MonthIndex(s), s.day, u, step), s, u)
    ensures StrictlyIncreasing(MonthSteps(MonthIndex(s), s.day, u, step))
  {
    var r := MonthSteps(MonthIndex(s), s.day, u, step);
    assert Candidate(MonthIndex(s), s.day) == s by {
      DivModUnique(MonthIndex(s), 12, s.year, s.month - 1);
    }
    MonthStepsIncreasing(MonthIndex(s), s.day, u, step);
    forall i | 0 <= i < |r| ensures !Before(r[i], s) && !Before(u, r[i]) {
      MonthStepsElement(MonthIndex(s), s.day, u, step, i);
    }
  }

  lemma {:induction false} DayStepsIncreasing(d: Day, until: Day, step: int)
    requires step >= 1
    ensures forall i, j :: 0 <= i < j < |DaySteps(d, until, step)| ==>
      Ordinal(DaySteps(d, until, step)[i]) < Ordinal(DaySteps(d, until, step)[j])
    decreases Ordinal(until) - Ordinal(d)
  {
    if Ordinal(d) <= Ordinal(until) {
      var next := AddDays(d, step);
      var rest := DaySteps(next, until, step);
      var r := [d] + rest;
      DayStepsIncreasing(next, until, step);
      assert DaySteps(d, until, step) == r;
      forall i, j | 0 <= i < j < |r| ensures Ordinal(r[i]) < Ordinal(r[j]) {
        assert Ordinal(next) <= Ordinal(r[j]);
        if i > 0 {
          assert r[i] == rest[i - 1] && r[j] == rest[j - 1];
        }
      }
    }
  }

  /** The `i`-th date of a month-stepped expansion keeps `day`, lies on the month grid and is not after `until`. */
  lemma {:induction false} MonthStepsElement(idx: int, day: int, until: Day, step: int, i: int)
    requires step >= 1 && 0 <= i < |MonthSteps(idx, day, until, step)|
    ensures MonthSteps(idx, day, until, step)[i].day == day
    ensures idx <= MonthIndex(MonthSteps(idx, day, until, step)[i])
    ensures (MonthIndex(MonthSteps(idx, day, until, step)[i]) - idx) % step == 0
    ensures !Before(until, MonthSteps(idx, day, until, step)[i])
    decreases MonthIndex(until) - idx
  {
    var r := MonthSteps(idx, day, until, step);
    var c := Candidate(idx, day);
    var rest := MonthSteps(idx + step, day, until, step);
    var keep := ValidDate(c) && !Before(until, c);
    assert r == if keep then [c] + rest else rest;
    if keep && i == 0 {
      assert r[i] == c;
      GridStart(MonthIndex(r[i]), idx, step);
    } else {
      var k := if keep then i - 1 else i;
      assert r[i] == rest[k];
      MonthStepsElement(idx + step, day, until, step, k);
      GridStep(MonthIndex(r[i]), idx, step);
    }
  }

  /** Every date of a month-stepped expansion is on its grid. */
  lemma MonthStepsShape(idx: int, day: int, until: Day, step: int)
    requires step >= 1
    ensures OnMonthGrid(MonthSteps(idx, day, until, step), idx, day, step)
  {
    var r := MonthSteps(idx, day, until, step);
    forall i | 0 <= i < |r| ensures r[i].day == day && idx <= MonthIndex(r[i]) && (MonthIndex(r[i]) - idx) % step == 0 {
      MonthStepsElement(idx, day, until, step, i);
    }
  }

  /** A month-stepped expansion is strictly increasing in months. */
  lemma {:induction false} MonthStepsIncreasing(idx: int, day: int, until: Day, step: int)
    requires step >= 1
    ensures forall i, j :: 0 <= i < j < |MonthSteps(idx, day, until, step)| ==>
      MonthIndex(MonthSteps(idx, day, until, step)[i]) < MonthIndex(MonthSteps(idx, day, until, step)[j])
    decreases MonthIndex(until) - idx
  {
    if idx <= MonthIndex(until) {
      var c := Candidate(idx, day);
      var rest := MonthSteps(idx + step, day, until, step);
      MonthStepsIncreasing(idx + step, day, until, step);
      if !(ValidDate(c) && !Before(until, c)) {
        assert MonthSteps(idx, day, until, step) == rest;
      } else {
        var r := [c] + rest;
        assert MonthSteps(idx, day, until, step) == r;
        forall i, j | 0 <= i < j < |r| ensures MonthIndex(r[i]) < MonthIndex(r[j]) {
          assert r[j] == rest[j - 1];
          MonthStepsElement(idx + step, day, until, step, j - 1);
          if i > 0 {
            assert r[i] == rest[i - 1];
          }
        }
      }
    }
  }

  // ---------------------------------------------------------------------------
  // Which dates the expansion yields, and how many.

  /** `(x - step) / step` is one less than `x / step`. */
  lemma ShiftDiv(x: int, step: int)
    requires step >= 1
    ensures (x - step) / step == x / step - 1
  {
    var q, m := x / step, x % step;
    assert x - step == (q - 1) * step + m;
    DivModUnique(x - step, step, q - 1, m);
  }

  /** A valid date is a DAILY/WEEKLY candidate exactly when it lies in [d, until] a whole number of steps after d. */
  lemma {:induction false} DayStepsMembers(d: Day, until: Day, step: int, e: Day)
    requires step >= 1
    ensures e in DaySteps(d, until, step) <==>
      Ordinal(d) <= Ordinal(e) <= Ordinal(until) && (Ordinal(e) - Ordinal(d)) % step == 0
    decreases Ordinal(until) - Ordinal(d)
  {
    if Ordinal(d) <= Ordinal(until) {
      var next := AddDays(d, step);
      var rest := DaySteps(next, until, step);
      assert DaySteps(d, until, step) == [d] + rest;
      DayStepsMembers(next, until, step, e);
      OrdinalOrder(d, e);
      StepCases(Ordinal(e) - Ordinal(d), Ordinal(until) - Ordinal(d), step);
    }
  }

  /** Being a whole number of steps into [0, hi]: either the first point, or a step further in. */
  lemma StepCases(x: int, hi: int, step: int)
    requires step >= 1
    ensures (0 <= x <= hi && x % step == 0) <==> (x == 0 && hi >= 0) || (step <= x <= hi && (x - step) % step == 0)
  {
    ShiftMod(x, step);
    if x > 0 && x % step == 0 {
      PositiveMultiple(x, step);
    }
  }

  /** The DAILY/WEEKLY expansion holds one date per whole step that fits between d and until. */
  lemma {:induction false} DayStepsCount(d: Day, until: Day, step: int)
    requires step >= 1
    ensures |DaySteps(d, until, step)| ==
      if Ordinal(d) > Ordinal(until) then 0 else (Ordinal(until) - Ordinal(d)) / step + 1
    decreases Ordinal(until) - Ordinal(d)
  {
    if Ordinal(d) <= Ordinal(until) {
      var next := AddDays(d, step);
      DayStepsCount(next, until, step);
      var x := Ordinal(until) - Ordinal(d);
      if x >= step {
        ShiftDiv(x, step);
      } else {
        DivModUnique(x, step, 0, x);
      }
    }
  }

  /** A date is determined by its month index and its day of the month. */
  lemma CandidateOf(e: Date)
    requires 1 <= e.month <= 12
    ensures Candidate(MonthIndex(e), e.day) == e
  {
    DivModUnique(MonthIndex(e), 12, e.year, e.month - 1);
  }

  /** A date not after `until` is in a month not after until's month. */
  lemma NotAfterMonth(e: Date, until: Date)
    requires 1 <= e.month <= 12 && 1 <= until.month <= 12 && !Before(until, e)
    ensures MonthIndex(e) <= MonthIndex(until)
  {
  }

  /**
   * A valid date is a MONTHLY/YEARLY candidate exactly when it keeps `day`, falls
   * a whole number of steps of months from `idx` onward, and is not after `until`.
   */
  lemma {:induction false} MonthStepsMembers(idx: int, day: int, until: Day, step: int, e: Day)
    requires step >= 1
    ensures e in MonthSteps(idx, day, until, step) <==>
      e.day == day && idx <= MonthIndex(e) && (MonthIndex(e) - idx) % step == 0 && !Before(until, e)
    decreases MonthIndex(until) - idx
  {
    if idx > MonthIndex(until) {
      if !Before(until, e) {
        NotAfterMonth(e, until);
      }
    } else {
      var c := Candidate(idx, day);
      var rest := MonthSteps(idx + step, day, until, step);
      assert MonthSteps(idx, day, until, step) == if ValidDate(c) && !Before(until, c) then [c] + rest else rest;
      MonthStepsMembers(idx + step, day, until, step, e);
      if !Before(until, e) {
        NotAfterMonth(e, until);
      }
      StepCases(MonthIndex(e) - idx, MonthIndex(until) - idx, step);
      if MonthIndex(e) == idx && e.day == day {
        CandidateOf(e);
      }
    }
  }

  /**
   * Twelve-times-`n` months apart means the same month and a whole number of
   * `n` years apart: the YEARLY grid, for month offsets `dm` within a year.
   */
  lemma YearGrid(dy: int, dm: int, n: int)
    requires n >= 1 && -12 < dm < 12
    ensures (12 * dy + dm) % (12 * n) == 0 <==> dm == 0 && dy % n == 0
  {
    var x := 12 * dy + dm;
    if dm == 0 && dy % n == 0 {
      var q := dy / n;
      assert dy == q * n;
      assert x == q * (12 * n) + 0;
      DivModUnique(x, 12 * n, q, 0);
    }
    if x % (12 * n) == 0 {
      var q := x / (12 * n);
      assert x == q * (12 * n);
      var k := dy - q * n;
      assert 12 * k == -dm;
      assert k == 0;
      DivModUnique(dy, n, q, 0);
    }
  }

  /** The dates of a DAILY rule with start `s`, end `u` (u not before s): every `interval`-th day from s through u. */
  lemma DailyDates(e: EventDate, d: Day)
    requires e.start.Some? && e.end.Some? && !Before(e.end.value, e.start.value)
    requires e.frequency == Daily
    ensures d in GenerateDates(e) <==>
      !Before(d, e.start.value) && !Before(e.end.value, d) &&
      (Ordinal(d) - Ordinal(e.start.value)) % e.interval == 0
  {
    DayStepsMembers(e.start.value, e.end.value, e.interval, d);
    OrdinalOrder(d, e.start.value);
    OrdinalOrder(e.end.value, d);
  }

  /** The dates of a WEEKLY rule: every `interval`-th week from the start through the end, on the start's weekday. */
  lemma WeeklyDates(e: EventDate, d: Day)
    requires e.start.Some? && e.end.Some? && !Before(e.end.value, e.start.value)
    requires e.frequency == Weekly
    ensures d in GenerateDates(e) <==>
      !Before(d, e.start.value) && !Before(e.end.value, d) &&
      (Ordinal(d) - Ordinal(e.start.value)) % (7 * e.interval) == 0
  {
    DayStepsMembers(e.start.value, e.end.value, 7 * e.interval, d);
    OrdinalOrder(d, e.start.value);
    OrdinalOrder(e.end.value, d);
  }

  /**
   * The dates of a MONTHLY rule: the start's day of the month in every
   * `interval`-th month from the start through the end, wherever that day exists.
   */
  lemma MonthlyDates(e: EventDate, d: Day)
    requires e.start.Some? && e.end.Some? && !Before(e.end.value, e.start.value)
    requires e.frequency == Monthly
    ensures d in GenerateDates(e) <==>
      d.day == e.start.value.day && !Before(d, e.start.value) && !Before(e.end.value, d) &&
      (MonthIndex(d) - MonthIndex(e.start.value)) % e.interval == 0
  {
    var s := e.start.value;
    MonthStepsMembers(MonthIndex(s), s.day, e.end.value, e.interval, d);
  }

  /**
   * The dates of a YEARLY rule: the start's month and day in every
   * `interval`-th year from the start through the end; a 29 February start
   * recurs only in leap years.
   */
  lemma YearlyDates(e: EventDate, d: Day)
    requires e.start.Some? && e.end.Some? && !Before(e.end.value, e.start.value)
    requires e.frequency == Yearly
    ensures d in GenerateDates(e) <==>
      d.month == e.start.value.month && d.day == e.start.value.day &&
      e.start.value.year <= d.year && (d.year - e.start.value.year) % e.interval == 0 &&
      !Before(e.end.value, d)
  {
    var s := e.start.value;
    MonthStepsMembers(MonthIndex(s), s.day, e.end.value, 12 * e.interval, d);
    YearGrid(d.year - s.year, d.month - s.month, e.interval);
    assert MonthIndex(d) - MonthIndex(s) == 12 * (d.year - s.year) + (d.month - s.month);
  }

  /**
   * A DAILY or WEEKLY rule: consecutive dates are exactly `interval` days
   * (`7 * interval` for WEEKLY) apart, and there are `(end - start) div step + 1` of them.
   */
  lemma DayRuleSpacing(e: EventDate)
    requires e.start.Some? && e.end.Some? && !Before(e.end.value, e.start.value)
    requires e.frequency == Daily || e.frequency == Weekly
    ensures DaysApart(GenerateDates(e), DayStep(e.frequency, e.interval))
    ensures |GenerateDates(e)| == (Ordinal(e.end.value) - Ordinal(e.start.value)) / DayStep(e.frequency, e.interval) + 1
  {
    OrdinalOrder(e.end.value, e.start.value);
    DayStepsCount(e.start.value, e.end.value, DayStep(e.frequency, e.interval));
  }
}
