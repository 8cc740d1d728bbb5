# Verified model of the traces-pkm calendar, duration and lookup core

A Dafny model of the parts of `traces-pkm` whose correctness is an argument rather than
a glance: local time across offset changes, duration text, the bounded delimiter
matcher, the three-way status index, and five small algorithms with laws of their own.
`dafny verify dfyconfig.toml` checks everything.

## What is modelled

- **Local time** (`src/date.rs`). A zone is a sorted sequence of transitions over
  nanosecond stamps: changes at least 48 hours apart, each of at most 24 hours, offsets
  under 24 hours. chrono's `Local` is any lookup that answers none, one or two readings
  of a wall clock truthfully, in either order. Files: `Zones`, `Resolver`, `DateTimes`,
  `Dates`, `DayShifts`, `Points`, `Applying`, on `Civil` (the proleptic Gregorian calendar of RFC 3339, section 5.7 and
  Appendix C), `Months` and `Walls`. Values outside chrono's range are errors, as in the
  source.
- **Durations** (`src/duration.rs`). The byte scanner in both modes, the greedy printer,
  the algebra over retained parts, and the conversion to seconds and nanoseconds.
  `DurationScan` says what the text denotes; `DurationScanner` holds the loops and is
  proved against it. `DurationNumbers` and `DurationGrammar` give the language on its own,
  by the spans of the text, and prove that the scan reads exactly that. A scanned number keeps its `-` apart, because the source tests
  `is_sign_negative`: `-0h 5m` is minus five minutes and `1h -0m` is refused.
- **Delimiters** (`src/delimiter.rs`). `Delimiters` holds the sixteen-entry stack,
  updated in place, and the `find_closing` loop; `DelimiterScan` is its meaning as a
  function; `DelimiterGrammar` is the language it should recognise, as trees.
- **Task statuses** (`src/task.rs`). `TaskStatuses.TaskStatusMap` keeps three maps in
  step; its invariant is that all three answer from the history of accepted writes.
  `StatusNames` is the name normalization.
- **Digest framing** (`src/hash.rs`), **folder distance** (`src/path.rs`), **forgiving
  field keys** (`src/field.rs`), **line lookup** (`src/position.rs`) and **tags**
  (`src/tag.rs`): `Digest`, `Folders`, `FieldKeys`, `Lines`, `Tags`.

Text is a sequence of Unicode characters; where the source reports a byte offset, the
model computes the UTF-8 length of the text before it. `f64` is a real number with the
range of finite values kept explicit.

## Where the code and its documentation part

- `src/date.rs:581-584` documents that a rendered date-time parses back to the same
  instant. On the second pass over an overlap it gives the first pass instead;
  `Resolver.OverlapDoesNotRoundTrip` is an instance, `ResolveRendered` the exact condition.
- `src/task.rs:210-212` says overriding keeps all three lookups consistent. After the
  default `X` is renamed, "Done" is no longer found by name although `x` still carries
  it: `TaskStatuses.RenamingHidesName`; `RunStaysCompleteIff` says exactly which runs of
  inserts lose a name.
- `src/hash.rs:66-72` calls the framing injective. It is for callers whose next operation
  is determined by what they have fed (`Digest.FeedsAreInjective`), but a frame does not
  name its kind: `Digest.KindsAreNotFramed`.
- `src/delimiter.rs:34-39` drops an entry pushed on a full stack. A word without double
  brackets nested sixteen deep inside its root, or deeper, then has its closer missed:
  nothing is reported, or a place inside the word
  (`DelimiterGrammar.WordIsFoundIffWithinLimit`). Text that is no word can be answered
  too: sixteen `(` and sixteen `)` after a root `(` give the place of the last `)`
  (`DelimiterGrammar.NonWordIsAnswered`).
- Measuring the months or years of a shift falls one short in exactly two cases
  (`Dates.DiffUndoesCalendarShift`): a forward shift clamped to a shorter month that lands
  on its target date, and a backward shift of a date-time that a gap pushed to the day
  after it, as over the skipped 30 December 2011 (`Dates.SkippedDayFallsShort`).
- A day or week shift of a date-time measures its count exactly when its target resolves
  under the offset it started from (`DayShifts.DiffOfDayShift`); a day across a clock going
  back an hour measures 25 hours (`DayShifts.DayAcrossHourBack`). Two such shifts are one
  by the sum exactly when the first does not aim at a skipped clock, or both aim at clocks
  skipped by as much (`DayShifts.DayShiftsComposeIff`, `SkippedDayBreaksComposition`).

## Model

| member | source | states |
|---|---|---|
| Resolver.ResolveGapOffset | src/date.rs:1525-1541 | the search returns the offset of the nearest hourly step back that has a reading, every nearer step having none, and fails only when none of the 25 representable steps has one |
| Resolver.GapOffsetIsBefore | src/date.rs:1516-1541 | from any wall clock inside a gap of at most 24 hours the search succeeds with the offset in force before the change, within as many steps as leave the gap |
| Resolver.StepsFitTheProbes | src/date.rs:1534 | 24 hourly steps always leave a gap, so 25 probes suffice |
| Resolver.ResolvesToEarliest | src/date.rs:1479-1504 | a wall clock with readings resolves to the least instant that renders as it, in whichever order an ambiguous pair arrives; the only failure is leaving the range |
| Resolver.ResolvesGapForward | src/date.rs:1505-1513 | a skipped wall clock resolves to an instant after the change that renders as the wall clock plus exactly the length of the gap |
| Resolver.ResolutionIsTotal | src/date.rs:1479-1515 | a day inside the range every wall clock resolves, and to the only instant that is its earliest reading or lies past its gap by the gap's length |
| Resolver.ResolveRendered | src/date.rs:645-649 | rendering an instant and resolving it never moves it later, and gives it back if and only if it does not repeat clocks shown before a change |
| Resolver.CompatibleOffset | src/date.rs:1479-1515 | the instant a wall clock resolves to is the wall clock less the offset of the first segment that shows it or whose end skips it |
| Resolver.OverlapDoesNotRoundTrip | src/date.rs:581-584 | where the clock goes back an hour, rendering and resolving any instant of the second pass gives the instant an hour before |
| Resolver.TableLookupIsFaithful | src/date.rs:1486-1504 | every well-spaced zone has a lookup of at most two readings, so the assumptions on chrono's answer can be met |
| Zones.NoReadingIffGap | src/date.rs:1505-1509 | a wall clock has no reading if and only if one forward change skipped it |
| Zones.SegmentsAreAdjacent | src/date.rs:1491-1499 | a wall clock is read on at most the two sides of one backward change |
| Zones.HourBeforeGap | src/date.rs:1506-1509 | in the hour before a gap the only reading is under the offset before the change |
| Zones.SkipIffNoReading | src/date.rs:1505-1513 | the jump over a wall clock is nothing exactly when it has a reading, and never more than a day |
| Zones.RisesByJumpIff | src/date.rs:1505-1513 | a wall clock moved forward by up to a day resolves under an offset larger by exactly that much if and only if a gap of that length skips it |
| Zones.LaterReading | src/date.rs:1491-1499 | an instant is a second reading of its wall clock exactly when it follows a backward change by less than the overlap |
| DateTimes.CalendarShiftLands | src/date.rs:681-761 | a day, week, month or year shift lands on the earliest instant showing the civilly shifted wall clock, or past the gap by its length when that clock is skipped |
| DateTimes.CalendarShiftSucceeds | src/date.rs:734-761 | away from the ends of the range a calendar shift fails exactly when the civil shift does |
| DateTimes.SubDayShiftIsExact | src/date.rs:681-723 | a sub-day shift adds exactly n units to the instant in every zone, overflow of the 64-bit count included |
| DateTimes.SubDayShiftsCompose | src/date.rs:681-723 | two sub-day shifts, even read in different zones, are one shift by the sum |
| DateTimes.ApplyPart | src/date.rs:815-862 | applying a part shifts by its whole count and adds a calendar fraction on the wall clock; sub-day parts move the instant |
| DateTimes.Apply | src/date.rs:778-799 | applying a duration applies its written parts left to right, or its seconds when it has none |
| DateTimes.PartsAppliedInTurn | src/date.rs:778-799 | applying concatenated parts is applying one list and then the other, errors included |
| DateTimes.SumAppliedInTurn | src/duration.rs:445-481 | applying the sum of two written durations is applying the first and then the second |
| DateTimes.WholePartIsShift | src/date.rs:815-862 | a whole number of any unit applies as the shift by that number, except that none of a calendar unit leaves the instant alone |
| DateTimes.CalendarPartLands | src/date.rs:815-862 | a calendar part shifts by its whole count, then moves the wall clock by what is left to the nearest nanosecond and resolves it, past the gap if it is skipped |
| DateTimes.SubDayPartsAddUp | src/date.rs:778-862 | sub-day parts move the instant by their total seconds, within half a nanosecond a part, in every zone |
| Applying.SubDayPartIsExact | src/date.rs:815-862 | a sub-day part of any magnitude moves the instant by its seconds to the nearest nanosecond, and fails exactly when that leaves the range |
| Applying.CalendarPartSucceeds | src/date.rs:815-862 | a calendar part succeeds whenever its count fits, the shift by it succeeds and the rest stays a day inside the range |
| Applying.OnePartApplied | src/date.rs:778-799 | a duration of one written part applies to a date-time as that part |
| Applying.SecondsMoveInstant | src/date.rs:791-798 | a duration without parts moves the instant by its seconds to the nearest nanosecond, in every zone |
| Applying.DifferenceLeadsThere | src/query/grammar/filter.rs:328-357 | between timed points, their difference synthesized as a duration and applied leads from one instant to exactly the other, in every zone |
| Dates.ShiftDateLands | src/date.rs:394-401 | a date shift reaches its civil target exactly and fails exactly when the target is not representable |
| Dates.UnitsAgree | src/date.rs:1565-1633 | for every count, n years are 12n months and n weeks are 7n days on dates |
| Dates.CalendarShiftLandsAt | src/date.rs:681-761 | every calendar shift that succeeds lands on the civilly shifted wall clock plus the jump over it |
| Dates.CalendarShiftMovesDate | src/date.rs:681-761 | a calendar shift that succeeds moves the local date as the date alone would move, or to the day after when the jump over a skipped clock carries it past midnight |
| Dates.ApplyDatePart | src/date.rs:448-495 | a date takes the whole count of a calendar part as a civil shift and every other second as whole days from midnight |
| Dates.ApplyToDate | src/date.rs:413-434 | a date takes the written parts left to right, or the seconds |
| Dates.SecondsMoveDays | src/date.rs:413-495 | seconds move a date by whole days rounded down, so a sub-day remainder never moves it forward |
| Dates.WholeDatePartIsShift | src/date.rs:448-495 | a whole number of any unit applies to a date as the shift by that number |
| Applying.CalendarDatePartLands | src/date.rs:448-495 | a calendar part of a date is its whole count as a shift and what is left as whole days, rounded down, with each failure |
| Applying.SubDayDatePartLands | src/date.rs:448-495 | a sub-day part moves a date by whole days, rounded down |
| Applying.DatePartsAppliedInTurn | src/date.rs:413-422 | applying concatenated parts to a date is applying one list and then the other, errors included |
| Applying.OneDatePartApplied | src/date.rs:413-422 | a duration of one written part applies to a date as that part |
| Applying.DateSumAppliedInTurn | src/duration.rs:445-481 | applying the sum of two written durations to a date is applying the first and then the second |
| Applying.SecondsMoveDate | src/date.rs:423-433 | a duration without parts moves a date by whole days of its seconds, rounded down |
| Applying.DateDifferenceLeadsThere | src/query/grammar/filter.rs:314-357 | from a midnight, the difference to another point applied to the date leads to the other's date if and only if that is not earlier and in the last second of its day |
| Points.ShiftKeepsPoint | src/date.rs:1179-1202 | a shifted point keeps its precision, and a timed one still shows the clock its instant renders as |
| Points.ShiftedDateInstant | src/date.rs:931-939 | a shifted date-only point takes the instant its own midnight resolves to, or that midnight in UTC exactly where the zone resolves it to none |
| Points.DiffCountsMonths | src/date.rs:1382-1432 | measuring months counts the shifts that are reached, and years are the months divided by twelve rounded toward zero |
| Dates.DiffOfFixedUnit | src/date.rs:1382-1432 | two timed points differ by the exact quotient of their instants, others by their wall clocks' quotient rounded toward zero |
| Dates.DiffIsAntisymmetric | src/date.rs:1382-1432 | measuring never fails and measuring backwards negates, in every unit |
| Dates.DiffUndoesFixedShift | src/date.rs:1179-1202 | between date-only points diff recovers the shift in every unit of fixed length, days and weeks included |
| Dates.DiffUndoesSubDayShift | src/date.rs:1179-1202 | between timed points diff recovers a sub-day shift exactly in every zone |
| DayShifts.DiffOfDayShift | src/date.rs:1382-1432 | between timed points a day or week shift measures its count plus the turn of the clock from the starting offset to the one its target resolves under, so the count is recovered if and only if the two offsets are equal |
| DayShifts.DayAcrossHourBack | src/date.rs:1382-1432 | from any instant of the day before a clock goes back an hour, a day ahead measures twenty-five hours |
| DayShifts.CalendarShiftInstant | src/date.rs:681-761 | a calendar shift that succeeds lands on the civil target less the offset that the zone's table resolves it under |
| DayShifts.DayShiftsCompose | src/date.rs:750-761 | two day or week shifts are one by the sum, errors included, when the first aims at a clock that is shown |
| DayShifts.DayShiftsComposeIff | src/date.rs:750-761 | when all succeed, two day or week shifts are one by the sum if and only if the first aims at a clock that is shown, or the sum at a clock skipped by as much |
| DayShifts.SkippedDayBreaksComposition | src/date.rs:750-761 | from any time of the day before a skipped one, two days one at a time end a day later than two days at once |
| Dates.DiffUndoesCalendarShift | src/date.rs:1382-1432 | for every month or year shift that succeeds: one that lands on its target date is recovered, one short exactly after a clamped forward shift; one that a gap pushes to the next day is recovered forwards, clamped or not, and one short backwards |
| Dates.SkippedDayFallsShort | src/date.rs:1382-1432 | in a zone that skips 30 December 2011, a year back from 30 December 2012 succeeds and measures no year |
| Months.AddMonthsLands | src/date.rs:1621-1633 | a month shift lands n months on, on the same day or the last day of that month |
| Months.AddMonthsMonotone | src/date.rs:1621-1633 | month shifting is monotone in the date |
| Months.AddMonthsTwice | src/date.rs:1621-1633 | two shifts land in the month of the combined shift on a day no later, the same day when it is at most 28 |
| Months.MonthsBracket | src/date.rs:1671-1690 | the month count brackets the later date between two shifts, the upper one reached exactly when the later date is a clamped month end |
| Months.MonthsCountReached | src/date.rs:1671-1690 | the month count is the only one whose shift is reached and whose next shift is not |
| Months.MonthsSinceShift | src/date.rs:1671-1690 | counting months to a shifted date gives the shift, one short exactly after a clamped forward shift |
| Months.MonthsSinceNextDay | src/date.rs:1671-1690 | counting months to the day after a shifted date gives the shift, one short exactly backwards |
| Months.YearsSinceNextDay | src/date.rs:1640-1662 | counting years to the day after a shifted date gives the shift, one short exactly backwards |
| Months.YearsSinceShift | src/date.rs:1640-1662 | counting years gives the shift, one short exactly from 29 February forward to a common year |
| Months.YearsAreTwelfthsOfMonths | src/date.rs:1640-1690 | the year count is the month count divided by twelve rounded toward zero |
| Months.CountsAreAntisymmetric | src/date.rs:1640-1690 | swapping the two dates negates both counts |
| Civil.DateOf | src/date.rs:1565-1633 | every day number is a valid date with that number, so civil dates and day numbers correspond |
| Civil.DayNumberOrder | src/date.rs:1640-1690 | day numbers order dates exactly as year, month, day do |
| Civil.GregorianCycle | src/date.rs:1621-1633 | 400 years are 146097 days, day 0 is 1 January 1970, and leap years are the Gregorian ones |
| TimeDeltas.FromSecondsRounds | src/duration.rs:1037-1059 | the sign fix, the rounding and the carry together round to the nearest nanosecond, halves upward, and fail exactly outside the range |
| TimeDeltas.FromSecondsError | src/duration.rs:1037-1059 | at most half a nanosecond is lost |
| TimeDeltas.FromSecondsMonotone | src/duration.rs:1037-1059 | the conversion is monotone |
| TimeDeltas.FromSecondsExact | src/duration.rs:1037-1059 | every whole number of nanoseconds converts to itself |
| DurationScanner.SkipSeparators | src/duration.rs:529-540 | the loop stops at the first character that is no separator |
| DurationScanner.ScanNumber | src/duration.rs:574-625 | the loops find the end of a sign, digits with one point, and an exponent that has digits |
| DurationScanner.ParseNumber | src/duration.rs:574-657 | the number at a position, its end, or the error |
| DurationScanner.ParseUnit | src/duration.rs:660-706 | the unit at a position, its end, or the error |
| DurationScanner.ScanPart | src/duration.rs:558-568 | a number directly followed by its unit |
| DurationScanner.ApplySign | src/duration.rs:709-721 | every magnitude is multiplied by the leading sign in place |
| DurationScanner.ScanParts | src/duration.rs:217-303 | the loop collects the parts of the text, refuses a later negative part, and stops where the mode says |
| DurationScanner.ScanDuration | src/duration.rs:217-303 | the scanned duration and the position after its last part, or the error |
| DurationScanner.Parse | src/duration.rs:188-194 | whole-string parsing of the trimmed input |
| DurationScanner.ParsePrefix | src/duration.rs:212-214 | recognition of a duration at the front of the input |
| DurationNumbers.NumberReads | src/duration.rs:574-657 | a sign, digits with one point and an exponent are read as the number they denote in place value, or refused when too large |
| DurationNumbers.NumberErrors | src/duration.rs:574-657 | each refusal of a number has exactly its own first characters |
| DurationGrammar.SpellingNamesUnit | src/duration.rs:916-923 | text names a unit exactly when it is one of the unit's spellings in any case |
| DurationGrammar.DocumentedNames | src/duration.rs:885-907 | exactly the documented names in any case are read as each unit |
| DurationGrammar.UnitRatios | src/duration.rs:933-944 | each unit is a whole number of the one below, a month thirty days, a year 365 |
| DurationGrammar.PieceReads | src/duration.rs:558-706 | a number, optional white space and a unit name are read as sign, magnitude and unit, whatever stands around them |
| DurationGrammar.PartErrors | src/duration.rs:660-706 | after a number the unit is missing exactly when no letter follows, and unknown exactly when the letters name none |
| DurationGrammar.PiecesRead | src/duration.rs:217-303 | any run of pieces with separators between is read as its parts under the first sign, or refused if a later one is negative |
| DurationGrammar.ScansExactlySpellings | src/duration.rs:217-303 | in both modes the scan accepts exactly the spellings without a later minus whose sum is finite, as what they mean |
| DurationGrammar.ParsesExactlySpellings | src/duration.rs:188-194 | whole-string parsing accepts exactly those spellings of the trimmed text, as what they mean |
| DurationGrammar.PrefixesExactlySpellings | src/duration.rs:212-303 | a prefix is recognised exactly where such a spelling stands at the front, up to its end |
| DurationGrammar.LateMinusIsRefused | src/duration.rs:241-248 | a minus on any piece after the first makes the text an invalid number |
| DurationGrammar.LateMinusIsNoPrefix | src/duration.rs:241-248 | the same minus leaves no prefix |
| DurationGrammar.FirstErrorStands | src/duration.rs:217-303 | the first part that cannot be read decides the error |
| Text.TrimCuts | src/duration.rs:188-194 | trimming takes only white space away, at both ends |
| DurationModes.PrefixThenWhole | src/duration.rs:188-303 | a recognised prefix parses as a whole to the same parts, seconds and spelling |
| DurationModes.WholeThenPrefix | src/duration.rs:188-303 | a trimmed string without commas that parses is recognised whole as a prefix, with the same result |
| DurationModes.ModesAgree | src/duration.rs:188-303 | on trimmed strings without commas the two modes accept the same whole strings with the same results |
| DurationModes.PrefixOffsetIsBytes | src/duration.rs:212-214 | the length of a recognised prefix in characters is its length in bytes |
| DurationPrint.Decompose | src/duration.rs:360-379 | the loop writes the nonzero counts of the greedy decomposition behind the sign |
| DurationPrint.CanonicalRaw | src/duration.rs:352-391 | the canonical spelling: zero, the decomposition, or the float dialect when nothing was written |
| DurationPrint.CountsAreMixedRadix | src/duration.rs:352-391 | the written counts are the nonzero counts of weeks, days < 7, hours < 24, minutes < 60, seconds < 60, milliseconds < 1000 |
| DurationPrint.SplitIsUnique | src/duration.rs:352-391 | only one such reading adds up to the total |
| DurationPieces.ParseJoined | src/duration.rs:217-303 | any text of numerals with unit letters, one space between, behind an optional minus, parses to exactly its pieces with the sign on all of them |
| DurationRoundTrip.PrintThenParse | src/duration.rs:352-391 | for every magnitude from half a millisecond to the u64 range, the canonical spelling parses, spelled the same, to the nearest millisecond with its sign, and exactly for whole milliseconds |
| DurationRoundTrip.DecomposesWhenWritten | src/duration.rs:360-391 | units are written exactly for those magnitudes |
| DurationRoundTrip.PrintIsStable | src/duration.rs:352-391 | printing the parsed duration gives the same text |
| DurationRoundTrip.CountsConserve | src/duration.rs:360-379 | the written counts add up to the milliseconds |
| DurationRoundTrip.ZeroRoundTrip | src/duration.rs:352-356 | zero prints as `0s`, which parses to zero |
| DurationRoundTrip.OnlyZeroPrintsAsZero | src/duration.rs:326-329 | if the float dialect never spells a nonzero number `0`, the canonical spelling is `0s` exactly for zero |
| DurationRoundTrip.FallsBack | src/duration.rs:382-391 | a nonzero magnitude below half a millisecond, or beyond the u64 range, is spelled in seconds in the float dialect |
| DurationRoundTrip.RawParsesAgain | src/duration.rs:188-194 | the retained text of a parsed duration parses to the same duration |
| DurationRoundTrip.ComputedReadsBack | src/duration.rs:326-481 | the text of every expression over parsed and synthesized durations reads back as the expression's value, to the nearest millisecond, when that is zero or can be written in units |
| DurationAlgebra.TreeFolds | src/duration.rs:445-481 | for every tree of parsed and synthesized durations, parts fold to the stored seconds, parts are kept exactly when every leaf was parsed, and the seconds are the tree's value |
| DurationAlgebra.AddIsAssociative | src/duration.rs:445-481 | addition is associative in parts, seconds and spelling |
| DurationAlgebra.SubIsAddNegated | src/duration.rs:798-844 | subtracting is adding the duration scaled by minus one |
| DurationAlgebra.ScalingKeepsUnits | src/duration.rs:816-844 | scaling multiplies each magnitude and the seconds, keeps units and order, and by one changes neither |
| DurationAlgebra.ScalingComposes | src/duration.rs:816-844 | scaling twice is scaling by the product |
| DurationAlgebra.ScalingDistributes | src/duration.rs:816-844 | scaling a sum is adding what is scaled, in parts, seconds and spelling |
| Delimiters.DelimiterStack.WithRoot | src/delimiter.rs:22-30 | a new stack holds the root alone, outside strings |
| Delimiters.DelimiterStack.PushEntry | src/delimiter.rs:34-39 | an entry goes on top, and is dropped when sixteen are open |
| Delimiters.DelimiterStack.AdvanceQuoteState | src/delimiter.rs:65-77 | a quote character opens a string and only its own kind closes it; everything inside is consumed |
| Delimiters.DelimiterStack.CheckDoubleBracketClose | src/delimiter.rs:85-94 | `]]` pops an innermost double bracket and tells whether it was the root |
| Delimiters.DelimiterStack.HandleCharClose | src/delimiter.rs:106-118 | a matching closer pops, a lone `]` between double brackets passes, any other closer is refused |
| Delimiters.FindClosing | src/delimiter.rs:237-292 | the loop returns the byte offset of the closer that the scan with a sixteen-entry limit finds, or nothing |
| DelimiterGrammar.FindsExactlyWords | src/delimiter.rs:237-292 | without a limit the scan finds p if and only if a balanced word ends at p with the closer of the root |
| DelimiterGrammar.FindsExactlyWordsWithinLimit | src/delimiter.rs:237-292 | while at most sixteen delimiters are open at once, root included, `find_closing` finds exactly the balanced words |
| DelimiterGrammar.OpenAtOnceIsDepth | src/delimiter.rs:237-292 | on a balanced word the delimiters open at once are the root and as many as the word's tree is deep |
| DelimiterGrammar.FindsExactlyShallowWords | src/delimiter.rs:237-292 | on an input that starts with a word whose tree, root included, is at most sixteen deep, that word and no other is found |
| DelimiterGrammar.FindsExactlyWordsWithFewOpeners | src/delimiter.rs:237-292 | on every input with fewer than sixteen opening characters `find_closing` finds exactly the balanced words |
| DelimiterGrammar.WordIsFoundIffWithinLimit | src/delimiter.rs:34-39 | for a word without double brackets, root included, the closer is found if and only if the tree is at most sixteen deep with its root; otherwise nothing or an earlier place is reported |
| DelimiterGrammar.NonWordIsAnswered | src/delimiter.rs:34-39 | after a root parenthesis, n openers and n closers are no word, yet from n = 16 on a place is reported |
| DelimiterGrammar.LimitCanPassUnnoticed | src/delimiter.rs:106-118 | between double brackets some word deeper than sixteen is found all the same, so the limit is not a necessary condition there |
| DelimiterGrammar.NestIsFoundIffShallow | src/delimiter.rs:8-39 | n nested pairs of parentheses inside a root parenthesis are matched correctly if and only if n < 16 |
| Delimiters.OffsetEndsWord | src/delimiter.rs:231-236 | while at most sixteen delimiters are open at once, the reported byte offset is that of the balanced word's closer and of no other place |
| DelimiterGrammar.WordIsFound | src/delimiter.rs:237-292 | every balanced word nested within the limit is found, whatever follows its closer |
| DelimiterGrammar.WordIsUnique | src/delimiter.rs:237-292 | a text starts with at most one balanced word and its closer |
| DelimiterGrammar.AnswerIgnoresWhatFollows | src/delimiter.rs:237-292 | at any depth, the closer is where the answer says, and replacing what follows it changes nothing |
| StatusNames.NormalizeName | src/task.rs:462-477 | the loops join the lower-cased words with single spaces |
| StatusNames.InnerSpaceCollapses | src/task.rs:457-477 | any run of white space inside a name is the same as one space |
| StatusNames.OuterSpaceIgnored | src/task.rs:457-477 | white space around a name is ignored |
| StatusNames.NormalizeIsIdempotent | src/task.rs:457-477 | a key is its own key |
| StatusNames.SameKeyIff | src/task.rs:457-477 | two names share a key exactly when their words have the same lower case |
| TaskStatuses.InsertedAgrees | src/task.rs:221-266 | an insert keeps the three tables in step: they answer from the accepted writes, and a rejected one changes nothing |
| TaskStatuses.ProhibitedAreDelimiters | src/task.rs:214-231 | the prohibited symbols are exactly the characters that open or close a delimiter |
| TaskStatuses.RunAgrees | src/task.rs:129-266 | after any run of inserts, by symbol is the last accepted write, by kind the live statuses, and by name the last accepted status of that name if it is live |
| TaskStatuses.BucketOrder | src/task.rs:186-188 | a bucket lists each live status of its kind once, in order of last insertion, and no other |
| TaskStatuses.SymbolAndKindAgree | src/task.rs:129-188 | a status is in its kind's bucket exactly when its symbol resolves to it |
| TaskStatuses.NameFindsLive | src/task.rs:169-171 | what a name finds has that name and is found by its symbol and its kind |
| TaskStatuses.NamesStayCompleteIff | src/task.rs:208-258 | an accepted insert keeps every live status's name findable if and only if it does not take away a name that another live status shares |
| TaskStatuses.DefaultNamesComplete | src/task.rs:272-283 | every default status's name can be found |
| TaskStatuses.RunStaysCompleteIff | src/task.rs:208-258 | along any run of inserts, every live status's name stays findable throughout if and only if no accepted insert takes away a shared name |
| TaskStatuses.RenamingHidesName | src/task.rs:422-455 | renaming the default `X` hides "Done" from lookup by name while symbol `x` and the kind still find it |
| TaskStatuses.TaskStatusMap.Default | src/task.rs:272-283 | the default map answers from the six default statuses |
| TaskStatuses.TaskStatusMap.Insert | src/task.rs:221-237 | the map answers from its history extended by the status, or is unchanged and reports the prohibited symbol |
| TaskStatuses.TaskStatusMap.PurgeStaleEntries | src/task.rs:242-257 | only the predecessor's bucket entry and its own name entry go |
| TaskStatuses.TaskStatusMap.IndexStatus | src/task.rs:262-266 | the status is written to all three tables |
| TaskStatuses.TaskStatusMap.Resolve | src/task.rs:144-154 | a known symbol resolves to its last status, an unknown one to a todo that keeps the symbol |
| TaskStatuses.TaskStatusMap.FindBySymbol | src/task.rs:129-134 | the last accepted status with the symbol |
| TaskStatuses.TaskStatusMap.FindByName | src/task.rs:169-171 | the last accepted status under the normalized name, if it is live |
| TaskStatuses.TaskStatusMap.FindByType | src/task.rs:186-188 | the live statuses of the kind in order of last insertion |
| Digest.Hasher.FeedBytes | src/hash.rs:86-89 | the stream grows by the framed bytes |
| Digest.Hasher.FeedLen | src/hash.rs:95-97 | the stream grows by the saturated little-endian length |
| Digest.Hasher.FeedPath | src/hash.rs:100-102 | the stream grows by the framed path bytes |
| Digest.Hasher.FeedOptionalPath | src/hash.rs:105-115 | the stream grows by a presence tag and the framed path |
| Digest.StreamGrows | src/hash.rs:86-115 | feeding one more field appends its encoding to the encoding of all fields before |
| Digest.FieldPrefixFree | src/hash.rs:86-115 | two fields fed by one operation are told apart whatever follows them |
| Digest.FeedsAreInjective | src/hash.rs:66-115 | callers whose next operation depends only on what they fed feed equal streams only for equal values, and no such stream is a prefix of another |
| Digest.SameKindsInjective | src/hash.rs:86-115 | two feeds with the same operations and the same stream were fed the same values |
| Digest.KindsAreNotFramed | src/hash.rs:66-97 | feeds of different operations can make the same stream |
| Digest.LittleEndianWeighs | src/hash.rs:91-97 | the bytes of a length, each weighed 256 times the one before, add up to it |
| Digest.FieldReadsBack | src/hash.rs:86-115 | a decoder that knows the operation reads every field back from its encoding, whatever follows |
| Digest.OversizeSaturates | src/hash.rs:91-97 | a length too large for the frame is the largest that fits |
| Folders.DistanceTo | src/path.rs:242-279 | the loop computes the lengths of both paths less twice their common prefix |
| Folders.ZeroIffSame | src/path.rs:240-241 | the distance is zero exactly between equal folders |
| Folders.Symmetric | src/path.rs:240-279 | the distance is symmetric |
| Folders.Triangle | src/path.rs:240-279 | the distance satisfies the triangle inequality |
| Folders.NoWalkIsShorter | src/path.rs:240-241 | no walk from parent to child and child to parent is shorter than the distance |
| Folders.ShortestWalkExists | src/path.rs:240-241 | a walk as short as the distance exists |
| FieldKeys.Canonicalize | src/field.rs:359-374 | the loop pushes `-` for white space, kept characters lower-cased, and nothing else |
| FieldKeys.TryNew | src/field.rs:282-297 | a key is built exactly from a name that is not blank, has no slash and keeps a character; each failure is named |
| FieldKeys.CanonicalIffFixedPoint | src/field.rs:396-403 | the shortcut test accepts exactly the non-empty fixed points of canonicalization |
| FieldKeys.CanonicalIsIdempotent | src/field.rs:359-374 | canonicalizing twice is canonicalizing once |
| FieldKeys.ToCanonicalIsCanonical | src/field.rs:412-418 | borrowing canonical text gives what canonicalizing would |
| FieldKeys.EmptyIffStripped | src/field.rs:386-388 | the emptiness test agrees with the canonical form |
| FieldKeys.MatchIffSameCanonical | src/field.rs:321-333 | a candidate matches exactly when its canonical form is the key's |
| FieldKeys.EquivalentHashesAlike | src/field.rs:565-577 | equivalent candidates hash like the key, for every hash function |
| FieldKeys.HashedFindsWhatScanFinds | src/field.rs:433-577 | a hashed lookup finds what a linear scan with `is_match` finds |
| FieldKeys.AtMostOneMatch | src/field.rs:433-440 | among distinct keys at most one matches a candidate |
| FieldKeys.SpaceIsDash | src/field.rs:346-374 | anywhere in a name, ASCII white space and a dash have one canonical form |
| FieldKeys.SymbolsAreDropped | src/field.rs:346-374 | removing a character leaves the canonical form alone exactly when it is ASCII and no letter, digit, white space, `_` or `-` |
| FieldKeys.CaseIsForgotten | src/field.rs:346-374 | kept characters of one lower case are interchangeable, and one that is its own lower case survives |
| Lines.NewLineIndex | src/position.rs:39-46 | the loop collects byte 0 and the saturated byte after each newline, in order |
| Lines.PartitionPoint | src/position.rs:57-58 | the binary search splits sorted starts at the position |
| Lines.LineAt | src/position.rs:57-61 | below the largest position the line is one plus the newlines strictly before it; at the largest it is the saturated number of lines |
| Lines.PastEndIsLastLine | src/position.rs:49-51 | a position past the end counts every newline |
| Tags.Parse | src/tag.rs:56-76 | exactly the tags parse, to themselves; each error is returned exactly when it is the input's one reason for refusal, with the byte offset |
| Tags.PrefixLen | src/tag.rs:136-155 | the loop returns the byte length of the longest tag prefix |
| Tags.LongestTagIsLongest | src/tag.rs:136-155 | that prefix is a tag and no longer prefix is one |
| Tags.ParsesIffPrefixIsAll | src/tag.rs:56-155 | parsing succeeds exactly when the prefix length is the whole byte length |
| Tags.ContainedIffSegment | src/tag.rs:184-209 | for any string, a tag is contained in it exactly when it is one of the tag's segments |
| Tags.ContainmentIsPartialOrder | src/tag.rs:205-209 | containment is reflexive, antisymmetric and transitive |
| Tags.ContainersFormChain | src/tag.rs:205-209 | of two containers of one tag, one contains the other |
| Tags.ContainersAreTags | src/tag.rs:184-209 | every container of a tag is a tag |
| Tags.SegmentsDescend | src/tag.rs:184-189 | each segment is contained in every segment before it |
| Tags.SubTagIsContained | src/tag.rs:157-209 | a tag followed by a slash and letters, digits, `_`, `-` or `/` is a tag contained in it |
| Tags.OtherCharactersEndTags | src/tag.rs:136-162 | at any other character the longest tag ends, and the whole is no tag |

## Left out

- chrono's text parsing and formatting, the system zone database and `TZ`: the zone is a parameter, and so is what the lookup answers, as long as it is truthful.
- Zones whose changes lie closer than 48 hours or exceed 24 hours, and leap seconds inside a stamp.
- IEEE rounding, NaN and signed-zero results, underflow of literals: arithmetic is over reals, with the largest finite `f64` as the bound; the float dialect that `canonical_raw` falls back on is a parameter.
- `week_boundary`, `month_boundary`, `year_boundary` and `weekday_point`: constructors of chrono called once.
- Identity of a zero calendar shift of a date-time: `shift(0, Day)` resolves the wall clock again, so it moves the later pass of an overlap.
- DelimiterGrammar.FindsExactlyWordsWithinLimit: on inputs that start with no word, the condition counts what the scan itself opens; `FindsExactlyWordsWithFewOpeners` and `FindsExactlyShallowWords` give conditions on the text and on the word.
- DelimiterGrammar.WordIsFoundIffWithinLimit: for words with double brackets the depth condition is sufficient but not necessary (`LimitCanPassUnnoticed`), and which deeper words are found is not characterised.
- Delimiters.DelimiterStack.PushEntry: lengths and offsets are unbounded, so the source's saturating additions never saturate here.
- Digest.FeedsAreInjective: one way. Some feeds of different schemas also differ; which ones depends on the schemas.
- BLAKE3, hex digests and collisions: only the framed byte stream is modelled.
- Lower-casing, `is_alphabetic` and `is_alphanumeric`: Unicode tables are parameters. `StatusNames.NormalizeIsIdempotent` and the laws of `FieldKeys` ask of lower-casing what Unicode promises of it, that its results are lower-case and stay kept.
- `IndexMap` probing order: a lookup is any scan of entries of equal hash.
- `LineIndex` counts its capacity in advance; only the contents are modelled.
- `DurationValue::classify`, and ordering and hashing of durations.
- `Tag::parse_lenient` and `is_hierarchical_match`, `TaskDateSet`, priorities, name tables, serialization, the token stream, and all filesystem work: easy members or no logic of their own.
