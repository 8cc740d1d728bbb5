/**
 Day and week shifts of date-times: where they land by the zone's table, when two of
 them are one, and how long they are on the instant.
 */
module DayShifts {
  import opened Wrappers
  import opened DurationUnits
  import opened Walls
  import opened Zones
  import opened Resolver
  import opened DateTimes
  import opened Dates

  /** A calendar shift lands on the instant that the zone's table gives its civil target. */
  lemma CalendarShiftInstant(local: LocalZone, instant: Stamp, n: int, unit: DurationUnit)
    requires local.Sound() && IsCalendar(unit) && Shift(local, instant, n, unit).Ok?
    ensures LocalWall(local.zone, instant).Some?
    ensures ShiftWall(LocalWall(local.zone, instant).value, n, unit).Ok?
    ensures var target := ShiftWall(LocalWall(local.zone, instant).value, n, unit).value;
            Shift(local, instant, n, unit).value == target - local.zone.ResolvingOffset(target)
  {
    hide Shift, ShiftWall, Zone.ResolvingOffset, Compatible;
    CalendarShiftLands(local, instant, n, unit);
    var target := ShiftWall(LocalWall(local.zone, instant).value, n, unit).value;
    CompatibleOffset(local.zone, target, Shift(local, instant, n, unit).value);
  }

  // ---------------------------------------------------------------- composition

  /** Two day or week shifts are one by the sum, errors included, when the first aims at a clock that is shown. */
  lemma DayShiftsCompose(local: LocalZone, instant: Stamp, m: int, n: int, unit: DurationUnit)
    requires local.Sound() && (unit == Day || unit == Week) && Shift(local, instant, m, unit).Ok?
    ensures LocalWall(local.zone, instant).Some?
    ensures ShiftWall(LocalWall(local.zone, instant).value, m, unit).Ok?
    ensures local.zone.Skip(ShiftWall(LocalWall(local.zone, instant).value, m, unit).value) == 0 ==>
              Shift(local, Shift(local, instant, m, unit).value, n, unit) == Shift(local, instant, m + n, unit)
  {
    hide Shift, ShiftWall, LocalNaiveToUtc, Zone.Skip, UnitNanos;
    CalendarShiftLandsAt(local, instant, m, unit);
    var wall := LocalWall(local.zone, instant).value;
    var target := ShiftWall(wall, m, unit).value;
    if local.zone.Skip(target) == 0 {
      WallShiftsCompose(wall, m, n, 0, unit);
      CalendarShiftIsCivil(local, instant, m + n, unit);
      CalendarShiftIsCivil(local, Shift(local, instant, m, unit).value, n, unit);
    }
  }

  lemma WallShiftsCompose(wall: Stamp, m: int, n: int, jump: int, unit: DurationUnit)
    requires (unit == Day || unit == Week) && ShiftWall(wall, m, unit).Ok?
    requires MIN_STAMP <= ShiftWall(wall, m, unit).value + jump <= MAX_STAMP
    ensures var twice := ShiftWall(ShiftWall(wall, m, unit).value + jump, n, unit);
            var once := ShiftWall(wall, m + n, unit);
            && (jump == 0 ==> twice == once)
            && (twice.Ok? && once.Ok? ==> twice.value == once.value + jump)
  {
    hide ShiftWall, UnitNanos;
    ShiftWallIsExact(wall, m, unit);
    ShiftWallIsExact(wall, m + n, unit);
    ShiftWallIsExact(ShiftWall(wall, m, unit).value + jump, n, unit);
    assert (m + n) * UnitNanos(unit) == m * UnitNanos(unit) + n * UnitNanos(unit);
  }

  /**
   Exactly when two successful day or week shifts are one by the sum: the clock that the
   first aims at is shown, or the clock that both aim at is skipped by as much.
   */
  lemma DayShiftsComposeIff(local: LocalZone, instant: Stamp, m: int, n: int, unit: DurationUnit)
    requires local.Sound() && (unit == Day || unit == Week)
    requires Shift(local, instant, m, unit).Ok? && Shift(local, instant, m + n, unit).Ok?
    requires Shift(local, Shift(local, instant, m, unit).value, n, unit).Ok?
    ensures LocalWall(local.zone, instant).Some?
    ensures ShiftWall(LocalWall(local.zone, instant).value, m, unit).Ok?
    ensures ShiftWall(LocalWall(local.zone, instant).value, m + n, unit).Ok?
    ensures var wall := LocalWall(local.zone, instant).value;
            var jump := local.zone.Skip(ShiftWall(wall, m, unit).value);
            Shift(local, Shift(local, instant, m, unit).value, n, unit) == Shift(local, instant, m + n, unit)
            <==> jump == 0 || local.zone.Skip(ShiftWall(wall, m + n, unit).value) == jump
  {
    hide Shift, ShiftWall, LocalNaiveToUtc, Zone.Skip, Zone.ResolvingOffset;
    var z, middle := local.zone, Shift(local, instant, m, unit).value;
    CalendarShiftLandsAt(local, instant, m, unit);
    CalendarShiftInstant(local, instant, m + n, unit);
    CalendarShiftInstant(local, middle, n, unit);
    var wall := LocalWall(z, instant).value;
    var target, goal := ShiftWall(wall, m, unit).value, ShiftWall(wall, m + n, unit).value;
    var jump := z.Skip(target);
    SkipIffNoReading(z, target);
    WallShiftsCompose(wall, m, n, jump, unit);
    if jump > 0 { RisesByJumpIff(z, goal, jump); }
  }

  // ---------------------------------------------------------------- length on the instant

  lemma QuotientOffBy(n: int, unit: DurationUnit, turned: int)
    requires unit != Month && unit != Year
    ensures (n * UnitNanos(unit) + turned) as real / UnitNanos(unit) as real == n as real <==> turned == 0
  {
    hide UnitNanos;
    var u := UnitNanos(unit);
    UnitNanosPositive(unit);
    WholeQuotient(n, unit);
    assert (n * u + turned) as real / u as real == (n * u) as real / u as real + turned as real / u as real;
    if turned != 0 { NonzeroQuotient(turned as real, u as real); }
  }

  lemma NonzeroQuotient(x: real, y: real)
    requires x != 0.0 && y > 0.0
    ensures x / y != 0.0
  {}

  /**
   Between timed points a day or week shift measures its count plus the turn of the clock
   from the starting offset to the one its target resolves under. So the count is
   recovered exactly when those two offsets are the same.
   */
  lemma DiffOfDayShift(local: LocalZone, p: DatePoint, n: int, unit: DurationUnit)
    requires local.Sound() && p.Consistent(local) && p.HasTime() && (unit == Day || unit == Week)
    requires ShiftPoint(local, p, n, unit).Ok?
    ensures ShiftWall(p.wall, n, unit).Ok?
    ensures var q := ShiftPoint(local, p, n, unit).value;
            var before := local.zone.OffsetAt(p.instant);
            var after := local.zone.ResolvingOffset(ShiftWall(p.wall, n, unit).value);
            && Diff(p, q, unit) == Ok(Exact((n * UnitNanos(unit) + before - after) as real / UnitNanos(unit) as real))
            && (Diff(p, q, unit) == Ok(Exact(n as real)) <==> before == after)
  {
    hide Diff, UnitNanos, LocalNaiveToUtc, Shift, ShiftWall, Zone.ResolvingOffset;
    var q := ShiftPoint(local, p, n, unit).value;
    CalendarShiftInstant(local, p.instant, n, unit);
    ShiftWallIsExact(p.wall, n, unit);
    DiffOfFixedUnit(p, q, unit);
    var before := local.zone.OffsetAt(p.instant);
    var after := local.zone.ResolvingOffset(ShiftWall(p.wall, n, unit).value);
    assert q.instant - p.instant == n * UnitNanos(unit) + (before - after);
    QuotientOffBy(n, unit, before - after);
  }

  // ---------------------------------------------------------------- instances

  /** From any instant of the day before a clock goes back an hour, a day ahead is twenty-five hours. */
  lemma DayAcrossHourBack(lookup: Lookup, instant: Stamp)
    requires Faithful(HourBack(), lookup) && -NANOS_PER_DAY <= instant < 0
    ensures var local, p := LocalZone(HourBack(), lookup), DatePoint(instant + NANOS_PER_HOUR, instant, Timed);
            && local.Sound() && p.Consistent(local)
            && ShiftPoint(local, p, 1, Day).Ok?
            && Diff(p, ShiftPoint(local, p, 1, Day).value, Day) == Ok(Exact(25.0 / 24.0))
  {
    hide Shift, ShiftWall, LocalNaiveToUtc, Diff, Faithful, Zone.ResolvingOffset;
    var z, wall := HourBack(), instant + NANOS_PER_HOUR;
    var local, p := LocalZone(z, lookup), DatePoint(wall, instant, Timed);
    var target := wall + NANOS_PER_DAY;
    OneChangeShows(NANOS_PER_HOUR, 0, 0, instant);
    ShiftWallIsExact(wall, 1, Day);
    CalendarShiftSucceeds(local, instant, 1, Day);
    CalendarShiftInstant(local, instant, 1, Day);
    ResolvesAfterHourBack(target);
    OneChangeShows(NANOS_PER_HOUR, 0, 0, target);
    DiffOfDayShift(local, p, 1, Day);
  }

  lemma ResolvesAfterHourBack(wall: int)
    requires NANOS_PER_HOUR <= wall
    ensures HourBack().ResolvingOffset(wall) == 0
  {
    ResolvingSegmentIs(HourBack(), wall, 1);
  }

  /** Two days from the day before the skipped one, taken one at a time, are a day more than at once. */
  lemma SkippedDayBreaksComposition(time: int)
    requires 0 <= time < NANOS_PER_DAY
    ensures var local, instant := DateLine(), Midnight(SKIPPED_DAY) - NANOS_PER_DAY + time + 10 * NANOS_PER_HOUR;
            && local.Sound()
            && MIN_STAMP <= instant <= MAX_STAMP
            && Shift(local, instant, 1, Day).Ok? && Shift(local, instant, 2, Day).Ok?
            && Shift(local, Shift(local, instant, 1, Day).value, 1, Day)
               == Ok(Shift(local, instant, 2, Day).value + NANOS_PER_DAY)
  {
    hide Shift, ShiftWall, LocalNaiveToUtc, Zone.ResolvingOffset, Zone.Skip, LocalZone.Sound;
    var local, skipped := DateLine(), Midnight(SKIPPED_DAY) + time;
    var z, wall := local.zone, skipped - NANOS_PER_DAY;
    var instant := wall + 10 * NANOS_PER_HOUR;
    DateLineIsSound();
    DateLineShows(skipped);
    ShiftWallIsExact(wall, 1, Day);
    ShiftWallIsExact(wall, 2, Day);
    CalendarShiftSucceeds(local, instant, 1, Day);
    CalendarShiftSucceeds(local, instant, 2, Day);
    CalendarShiftLandsAt(local, instant, 1, Day);
    CalendarShiftInstant(local, instant, 2, Day);
    var middle := Shift(local, instant, 1, Day).value;
    ShiftWallIsExact(skipped + NANOS_PER_DAY, 1, Day);
    CalendarShiftSucceeds(local, middle, 1, Day);
    CalendarShiftInstant(local, middle, 1, Day);
  }

  // The zone without the skipped day, around a clock of that day.
  lemma DateLineShows(skipped: int)
    requires Midnight(SKIPPED_DAY) <= skipped < Midnight(SKIPPED_DAY) + NANOS_PER_DAY
    ensures var z := DateLineZone();
            && LocalWall(z, skipped - NANOS_PER_DAY + 10 * NANOS_PER_HOUR) == Some(skipped - NANOS_PER_DAY)
            && z.Skip(skipped) == NANOS_PER_DAY
            && z.ResolvingOffset(skipped + NANOS_PER_DAY) == 14 * NANOS_PER_HOUR
            && z.ResolvingOffset(skipped + 2 * NANOS_PER_DAY) == 14 * NANOS_PER_HOUR
            && MIN_STAMP + 4 * NANOS_PER_DAY <= skipped <= MAX_STAMP - 4 * NANOS_PER_DAY
  {
    var z := DateLineZone();
    DateLineIsSound();
    OneChangeShows(z.initial, z.transitions[0].at, z.Offset(1), skipped - NANOS_PER_DAY + 10 * NANOS_PER_HOUR);
    SkipIsGap(z, skipped, 0);
    ResolvingSegmentIs(z, skipped + NANOS_PER_DAY, 1);
    ResolvingSegmentIs(z, skipped + 2 * NANOS_PER_DAY, 1);
  }
}
