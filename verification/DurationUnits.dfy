/** The registry of duration units: seconds per unit and accepted spellings. */
module DurationUnits {
  import opened Wrappers

  datatype DurationUnit =
    | Millisecond
    | Second
    | Minute
    | Hour
    | Day
    | Week
    | Month
    | Year

  /** Nominal seconds per unit; calendar units have fixed ratios here. */
  function FixedSeconds(unit: DurationUnit): (r: real) {
    match unit
    case Millisecond => 0.001
    case Second => 1.0
    case Minute => 60.0
    case Hour => 3_600.0
    case Day => 86_400.0
    case Week => 604_800.0
    case Month => 2_592_000.0
    case Year => 31_536_000.0
  }

  /** Whole seconds per unit, absent for milliseconds. */
  function FixedSecondsI64(unit: DurationUnit): Option<int> {
    if unit == Millisecond then None else Some(FixedSeconds(unit).Floor)
  }

  predicate IsCalendar(unit: DurationUnit) {
    unit in {Day, Week, Month, Year}
  }

  // ---------------------------------------------------------------- spellings

  function LowerChar(c: char): char {
    if 'A' <= c <= 'Z' then (c as int + 32) as char else c
  }

  /** `make_ascii_lowercase`. */
  function Lower(s: string): (r: string)
    ensures |r| == |s|
    ensures forall i :: 0 <= i < |s| ==> r[i] == LowerChar(s[i])
  {
    if s == [] then [] else [LowerChar(s[0])] + Lower(s[1..])
  }

  const MAX_SPELLING := 16

  /** The lowercase spellings of each unit. */
  function Spellings(unit: DurationUnit): set<string> {
    match unit
    case Millisecond => {"ms", "millisecond", "milliseconds"}
    case Second => {"s", "sec", "secs", "second", "seconds"}
    case Minute => {"m", "min", "mins", "minute", "minutes"}
    case Hour => {"h", "hr", "hrs", "hour", "hours"}
    case Day => {"d", "day", "days"}
    case Week => {"w", "wk", "wks", "week", "weeks"}
    case Month => {"mo", "mos", "month", "months"}
    case Year => {"y", "yr", "yrs", "year", "years"}
  }

  // The units of the registry in declaration order.
  function Larger(unit: DurationUnit): Option<DurationUnit> {
    match unit
    case Millisecond => Some(Second)
    case Second => Some(Minute)
    case Minute => Some(Hour)
    case Hour => Some(Day)
    case Day => Some(Week)
    case Week => Some(Month)
    case Month => Some(Year)
    case Year => None
  }

  function Rank(unit: DurationUnit): nat {
    match unit
    case Millisecond => 7
    case Second => 6
    case Minute => 5
    case Hour => 4
    case Day => 3
    case Week => 2
    case Month => 1
    case Year => 0
  }

  // The unit spelled `lower`, searched from `unit` up.
  function LookUp(lower: string, unit: DurationUnit): Option<DurationUnit>
    decreases Rank(unit), lower
  {
    if lower in Spellings(unit) then Some(unit)
    else match Larger(unit)
         case None => None
         case Some(next) => LookUp(lower, next)
  }

  /** Case-insensitive lookup of a unit spelling of at most sixteen bytes. */
  function ParseUnitName(unit: string): Option<DurationUnit> {
    if |unit| > MAX_SPELLING then None else LookUp(Lower(unit), Millisecond)
  }
}
