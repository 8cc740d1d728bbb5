/** Shifted points: what a point's wall clock, instant and precision are after a shift. */
module Points {
  import opened Wrappers
  import opened Civil
  import opened Months
  import opened DurationUnits
  import opened Walls
  import opened Resolver
  import opened DateTimes
  import opened Dates

  /** A shifted point keeps its precision, and a timed one still shows the clock its instant renders as. */
  lemma ShiftKeepsPoint(local: LocalZone, p: DatePoint, n: int, unit: DurationUnit)
    requires ShiftPoint(local, p, n, unit).Ok?
    ensures var q := ShiftPoint(local, p, n, unit).value;
            && q.precision == p.precision && q.Consistent(local)
            && if p.HasTime() then Shift(local, p.instant, n, unit) == Ok(q.instant)
               else ShiftWall(p.wall, n, unit) == Ok(q.wall)
  {
    hide Shift, ShiftWall, LocalNaiveToUtc, LocalWall;
  }

  /**
   A shifted date-only point takes the instant of the midnight of its own date: the one
   the zone resolves that midnight to, or the midnight in UTC where it resolves to none.
   */
  lemma ShiftedDateInstant(local: LocalZone, p: DatePoint, n: int, unit: DurationUnit)
    requires local.Sound() && !p.HasTime() && ShiftPoint(local, p, n, unit).Ok?
    ensures var q := ShiftPoint(local, p, n, unit).value;
            var midnight := MidnightOf(DayOf(q.wall));
            && midnight <= q.wall < midnight + NANOS_PER_DAY
            && (if LocalNaiveToUtc(local.lookup, midnight).Ok?
                then Compatible(local.zone, midnight, q.instant)
                else q.instant == midnight)
            && (MIN_STAMP + NANOS_PER_DAY <= midnight <= MAX_STAMP - NANOS_PER_DAY ==>
                  LocalNaiveToUtc(local.lookup, midnight).Ok?)
  {
    hide ShiftWall, LocalNaiveToUtc, DateOf, Compatible;
    var q := ShiftPoint(local, p, n, unit).value;
    var midnight := MidnightOf(DayOf(q.wall));
    RangeOfDates(q.wall);
    SplitStamp(q.wall);
    if LocalNaiveToUtc(local.lookup, midnight).Ok? { ResolvedRenders(local, midnight); }
    if MIN_STAMP + NANOS_PER_DAY <= midnight <= MAX_STAMP - NANOS_PER_DAY {
      ResolutionIsTotal(local.zone, local.lookup, midnight);
    }
  }

  /** Measuring months or years between any two points counts them between their dates. */
  lemma DiffCountsMonths(from: DatePoint, to: DatePoint, k: int)
    requires DateAt(from.wall).AtMost(DateAt(to.wall))
    ensures Diff(from, to, Month) == Ok(DateDiff.Whole(k)) <==>
              Reached(DateAt(from.wall), k, DateAt(to.wall)) && !Reached(DateAt(from.wall), k + 1, DateAt(to.wall))
    ensures Diff(from, to, Month).Ok? && Diff(from, to, Month).value.Whole?
            && Diff(from, to, Year) == Ok(DateDiff.Whole(TruncDiv(Diff(from, to, Month).value.n, 12)))
  {
    hide Reached, DateAt, SignedMonthsSince, SignedYearsSince;
    MonthsCountReached(DateAt(from.wall), DateAt(to.wall), k);
    YearsAreTwelfthsOfMonths(DateAt(from.wall), DateAt(to.wall));
  }
}
