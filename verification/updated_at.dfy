/**
  `formatUpdatedAt`: the "updated …" line of a repository card, chosen from
  the whole hours and whole days between the update and now. The clock, the
  parsing of the ISO instant and the rendering of the local date are left
  to the caller: the input is the elapsed time in milliseconds, and the
  rendered date.
 */
module UpdatedAt {
  import opened Wrappers
  import opened Strings

  const HourMs: int := 3_600_000
  const DayMs: int := 86_400_000

  /** Kotlin's `Duration.inWholeX`: division truncated toward zero, also for a negative duration. */
  function WholeUnits(ms: int, unit: int): (n: int)
    requires unit > 0
    ensures ms >= 0 ==> 0 <= n * unit <= ms < (n + 1) * unit
    ensures ms < 0 ==> (n - 1) * unit < ms <= n * unit <= 0
  {
    if ms >= 0 then
      DivBounds(ms, unit);
      ms / unit
    else
      DivBounds(-ms, unit);
      -((-ms) / unit)
  }

  /** Euclidean division of a non-negative number brackets it between two multiples. */
  lemma DivBounds(a: int, unit: int)
    requires a >= 0 && unit > 0
    ensures 0 <= (a / unit) * unit <= a < (a / unit + 1) * unit
  {
    var q, m := a / unit, a % unit;
    assert a == q * unit + m;
    assert (q + 1) * unit == q * unit + unit;
  }

  /** Whole units never go down as the duration grows. */
  lemma WholeUnitsMonotone(a: int, b: int, unit: int)
    requires unit > 0 && a <= b
    ensures WholeUnits(a, unit) <= WholeUnits(b, unit)
  {
    var x, y := WholeUnits(a, unit), WholeUnits(b, unit);
    if x > y {
      assert (y + 1) * unit <= x * unit by { MulLe(y + 1, x, unit); }
    }
  }

  lemma MulLe(x: int, y: int, unit: int)
    requires x <= y && unit > 0
    ensures x * unit <= y * unit
  {
  }

  /** Which line is shown. */
  datatype Bucket = JustNow | HoursAgo(hours: int) | Yesterday | DaysAgo(days: int) | OnDate

  /** The `when` of `formatUpdatedAt`: the first branch whose test holds. */
  function Classify(elapsedMs: int): (b: Bucket)
    ensures b.JustNow? <==> WholeUnits(elapsedMs, HourMs) < 1
    ensures b.HoursAgo? ==> b.hours == WholeUnits(elapsedMs, HourMs) && 1 <= b.hours < 24
    ensures b.Yesterday? ==> WholeUnits(elapsedMs, DayMs) == 1
    ensures b.DaysAgo? ==> b.days == WholeUnits(elapsedMs, DayMs) && 2 <= b.days < 7
    ensures b.OnDate? ==> WholeUnits(elapsedMs, DayMs) >= 7
  {
    var hours := WholeUnits(elapsedMs, HourMs);
    var days := WholeUnits(elapsedMs, DayMs);
    if hours < 1 then JustNow
    else if hours < 24 then HoursAgo(hours)
    else if days == 1 then Yesterday
    else if days < 7 then
      DaysPastFirstDay(elapsedMs);
      DaysAgo(days)
    else OnDate
  }

  /** Past the first 24 whole hours, at least one whole day has passed. */
  lemma DaysPastFirstDay(elapsedMs: int)
    requires WholeUnits(elapsedMs, HourMs) >= 24
    ensures WholeUnits(elapsedMs, DayMs) >= 1
  {
    assert elapsedMs >= 24 * HourMs by {
      MulLe(24, WholeUnits(elapsedMs, HourMs), HourMs);
    }
  }

  /** The position of a bucket in the order the lines follow one another as time passes. */
  function Rank(b: Bucket): nat {
    match b
    case JustNow => 0
    case HoursAgo(_) => 1
    case Yesterday => 2
    case DaysAgo(_) => 3
    case OnDate => 4
  }

  /** As more time passes, the line moves on and never back; within a bucket the count grows. */
  lemma ClassifyMonotone(a: int, b: int)
    requires a <= b
    ensures Rank(Classify(a)) <= Rank(Classify(b))
    ensures Classify(a).HoursAgo? && Classify(b).HoursAgo? ==> Classify(a).hours <= Classify(b).hours
    ensures Classify(a).DaysAgo? && Classify(b).DaysAgo? ==> Classify(a).days <= Classify(b).days
  {
    WholeUnitsMonotone(a, b, HourMs);
    WholeUnitsMonotone(a, b, DayMs);
    if WholeUnits(a, HourMs) >= 24 {
      DaysPastFirstDay(a);
    }
  }

  /** Every elapsed time, the future included, gets one of the five lines, by these thresholds. */
  lemma ClassifyThresholds(elapsedMs: int)
    ensures elapsedMs < HourMs ==> Classify(elapsedMs) == JustNow
    ensures HourMs <= elapsedMs < 24 * HourMs ==> Classify(elapsedMs) == HoursAgo(elapsedMs / HourMs)
    ensures DayMs <= elapsedMs < 2 * DayMs ==> Classify(elapsedMs) == Yesterday
    ensures 2 * DayMs <= elapsedMs < 7 * DayMs ==> Classify(elapsedMs) == DaysAgo(elapsedMs / DayMs)
    ensures 7 * DayMs <= elapsedMs ==> Classify(elapsedMs) == OnDate
  {
  }

  /** `"s"` unless the count is exactly 1. */
  function Plural(n: int): string {
    if n == 1 then "" else "s"
  }

  /** The shown line; `date` is the update's local date, rendered by the caller. */
  function Text(b: Bucket, date: string): (t: string)
    requires b.HoursAgo? ==> b.hours >= 0
    requires b.DaysAgo? ==> b.days >= 0
  {
    match b
    case JustNow => "updated just now"
    case HoursAgo(h) => "updated " + Decimal(h) + " hour" + Plural(h) + " ago"
    case Yesterday => "updated yesterday"
    case DaysAgo(d) => "updated " + Decimal(d) + " day" + Plural(d) + " ago"
    case OnDate => "updated on " + date
  }

  /** `formatUpdatedAt`, given the elapsed milliseconds and the rendered local date. */
  function FormatUpdatedAt(elapsedMs: int, date: string): (t: string)
    ensures var b := Classify(elapsedMs);
            && (b.JustNow? ==> t == "updated just now")
            && (b.HoursAgo? ==> t == "updated " + Decimal(b.hours) + " hour" + Plural(b.hours) + " ago")
            && (b.Yesterday? ==> t == "updated yesterday")
            && (b.DaysAgo? ==> t == "updated " + Decimal(b.days) + " days ago")
            && (b.OnDate? ==> t == "updated on " + date)
  {
    var b := Classify(elapsedMs);
    Text(b, date)
  }

  /** The hour count is singular exactly when it is 1; the day count is never singular. */
  lemma PluralForms(elapsedMs: int)
    ensures var b := Classify(elapsedMs);
            b.HoursAgo? ==> (Plural(b.hours) == "" <==> b.hours == 1)
    ensures var b := Classify(elapsedMs);
            b.DaysAgo? ==> Plural(b.days) == "s"
  {
  }

  /** The number shown reads back as the count it renders. */
  lemma CountReadsBack(elapsedMs: int)
    requires Classify(elapsedMs).HoursAgo?
    ensures ParseInt(Decimal(Classify(elapsedMs).hours)) == Some(Classify(elapsedMs).hours)
  {
    ParseDecimal(Classify(elapsedMs).hours);
  }
}
