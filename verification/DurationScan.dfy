/**
 The duration scanner of `src/duration.rs` as functions of the input: where each
 number, unit and part ends, what it denotes, and which error stops the scan.
 */
module DurationScan {
  import opened Wrappers
  import opened Floats
  import opened Text
  import opened DurationUnits
  import opened TimeDeltas

  /** One written part, in `DurationValue::parts`. */
  datatype Part = Part(mag: real, unit: DurationUnit)

  datatype DurationValue = DurationValue(raw: string, seconds: real, parts: Option<seq<Part>>)

  function PartSeconds(part: Part): real {
    part.mag * FixedSeconds(part.unit)
  }

  /** `fold_parts`: total seconds, added left to right. */
  function FoldParts(parts: seq<Part>): real {
    if parts == [] then 0.0
    else FoldParts(parts[..|parts| - 1]) + PartSeconds(parts[|parts| - 1])
  }

  lemma FoldSnoc(parts: seq<Part>, last: Part)
    ensures FoldParts(parts + [last]) == FoldParts(parts) + PartSeconds(last)
  {}

  // ---------------------------------------------------------------- float literals

  /** A scanned float: the sign is kept apart, so `-0` differs from `0`. */
  datatype Number = Number(negative: bool, mag: real)

  predicate DigitAt(s: string, pos: nat) {
    pos < |s| && IsDigit(s[pos])
  }

  predicate SignAt(s: string, pos: nat) {
    pos < |s| && (s[pos] == '+' || s[pos] == '-')
  }

  predicate PointAt(s: string, pos: nat) {
    pos < |s| && s[pos] == '.'
  }

  predicate ExponentMarkAt(s: string, pos: nat) {
    pos < |s| && (s[pos] == 'e' || s[pos] == 'E')
  }

  function DigitValue(c: char): nat {
    if IsDigit(c) then c as int - '0' as int else 0
  }

  /** The number a digit string denotes in base ten. */
  function DigitsValue(s: string): nat {
    if s == [] then 0
    else 10 * DigitsValue(s[..|s| - 1]) + DigitValue(s[|s| - 1])
  }

  /** `x` times ten to the `e`. */
  function Scale10(x: real, e: int): real
    decreases if e < 0 then -e else e
  {
    if e > 0 then Scale10(x * 10.0, e - 1)
    else if e < 0 then Scale10(x / 10.0, e + 1)
    else x
  }

  /** `str::parse::<f64>` over exact reals, for the literals the scanner cuts out. */
  function ParseFloat(text: string): Option<Number> {
    var start := if SignAt(text, 0) then 1 else 0;
    var point := SkipWhile(text, start, IsDigit);
    var fraction := if PointAt(text, point) then point + 1 else point;
    var end := SkipWhile(text, fraction, IsDigit);
    var digits := text[start..point] + text[fraction..end];
    if digits == [] then
      None
    else
      match FloatExponent(text, end)
      case None => None
      case Some(e) =>
        var mag := Scale10(DigitsValue(digits) as real, e - (end - fraction));
        Some(Number(text[0] == '-', mag))
  }

  // The exponent that must make up the rest of a float literal.
  function FloatExponent(text: string, pos: nat): Option<int>
    requires pos <= |text|
  {
    if pos == |text| then Some(0)
    else if !ExponentMarkAt(text, pos) then None
    else
      var first := if SignAt(text, pos + 1) then pos + 2 else pos + 1;
      var end := SkipWhile(text, first, IsDigit);
      if first == end || end < |text| then None
      else
        var e: int := DigitsValue(text[first..end]);
        Some(if text[pos + 1] == '-' then -e else e)
  }

  // ---------------------------------------------------------------- numbers

  /** A digit, or a point followed by one. */
  predicate DigitsAhead(s: string, pos: nat) {
    DigitAt(s, pos) || (PointAt(s, pos) && DigitAt(s, pos + 1))
  }

  /** `can_start_duration_segment`. */
  predicate CanStart(s: string, pos: nat) {
    DigitsAhead(s, pos) || (SignAt(s, pos) && DigitsAhead(s, pos + 1))
  }

  /** End of the digits from `pos`, with one point among them unless one was seen. */
  function MantissaEnd(s: string, pos: nat, pointSeen: bool): (r: nat)
    requires pos <= |s|
    ensures pos <= r <= |s|
    decreases |s| - pos
  {
    if DigitAt(s, pos) then MantissaEnd(s, pos + 1, pointSeen)
    else if PointAt(s, pos) && !pointSeen then MantissaEnd(s, pos + 1, true)
    else pos
  }

  predicate HasDigit(s: string, from: nat, to: nat)
    requires from <= to <= |s|
  {
    exists i :: from <= i < to && IsDigit(s[i])
  }

  /** End of the exponent at `pos`; an exponent without digits is not consumed. */
  function ExponentEnd(s: string, pos: nat): (r: nat)
    requires pos <= |s|
    ensures pos <= r <= |s|
  {
    if !ExponentMarkAt(s, pos) then pos
    else
      var first := if SignAt(s, pos + 1) then pos + 2 else pos + 1;
      if DigitAt(s, first) then SkipWhile(s, first, IsDigit) else pos
  }

  // End of the number at `pos`, sign included.
  function NumberEnd(s: string, pos: nat): (r: nat)
    requires pos <= |s|
    ensures pos <= r <= |s|
  {
    var start := if SignAt(s, pos) then pos + 1 else pos;
    var end := MantissaEnd(s, start, false);
    if HasDigit(s, start, end) then ExponentEnd(s, end) else end
  }

  function LiteralValue(text: string): Result<Number, DurationError> {
    if text == [] then Err(MissingNumber)
    else match ParseFloat(text)
         case None => Err(MalformedNumber)
         case Some(n) => if IsFinite(n.mag) then Ok(n) else Err(NonFiniteNumber)
  }

  /** What `parse_number` reads at `pos`, with the position after it. */
  function NumberAt(s: string, pos: nat): (r: Result<(Number, nat), DurationError>)
    requires pos <= |s|
    ensures r.Ok? ==> pos < r.value.1 == NumberEnd(s, pos) <= |s|
  {
    if SignAt(s, pos) && !DigitsAhead(s, pos + 1) then
      Err(InvalidNumber)
    else
      var end := NumberEnd(s, pos);
      match LiteralValue(s[pos..end])
      case Err(e) => Err(e)
      case Ok(n) => Ok((n, end))
  }

  // ---------------------------------------------------------------- units and parts

  function SpellingValue(text: string): Result<DurationUnit, DurationError> {
    if text == [] then Err(MissingUnit)
    else match ParseUnitName(text)
         case None => Err(UnknownUnit)
         case Some(u) => Ok(u)
  }

  /** What `parse_unit` reads at `pos`, with the position after it. */
  function UnitAt(s: string, pos: nat): (r: Result<(DurationUnit, nat), DurationError>)
    requires pos <= |s|
    ensures r.Ok? ==> pos < r.value.1 == SkipWhile(s, pos, IsAlpha)
  {
    var end := SkipWhile(s, pos, IsAlpha);
    match SpellingValue(s[pos..end])
    case Err(e) => Err(e)
    case Ok(u) => Ok((u, end))
  }

  datatype ScannedPart = ScannedPart(number: Number, unit: DurationUnit, end: nat)

  /** What `scan_part` reads at `pos`. */
  function PartAt(s: string, pos: nat): (r: Result<ScannedPart, DurationError>)
    requires pos <= |s|
    ensures r.Ok? ==> pos < r.value.end <= |s|
  {
    match NumberAt(s, pos)
    case Err(e) => Err(e)
    case Ok((number, afterNumber)) =>
      match UnitAt(s, SkipWhile(s, afterNumber, IsAsciiWhitespace))
      case Err(e) => Err(e)
      case Ok((unit, end)) => Ok(ScannedPart(number, unit, end))
  }

  // ---------------------------------------------------------------- whole scans

  datatype ScanMode = Whole | Prefix

  predicate IsSeparator(c: char) {
    IsAsciiWhitespace(c) || c == ','
  }

  /** Where the part after one ending at `end` starts, if there is another part. */
  function NextPart(s: string, end: nat, mode: ScanMode): (r: Option<nat>)
    requires end <= |s|
    ensures r.Some? ==> end <= r.value < |s|
  {
    match mode
    case Whole =>
      var pos := SkipWhile(s, end, IsSeparator);
      if pos >= |s| then None else Some(pos)
    case Prefix =>
      var pos := SkipWhile(s, end, IsAsciiWhitespace);
      if pos < |s| && CanStart(s, pos) then Some(pos) else None
  }

  datatype Scanned = Scanned(negative: bool, parts: seq<Part>, end: nat)

  // A part put before the parts after it.
  function Consed(head: Part, negative: bool, rest: Result<Scanned, DurationError>)
    : Result<Scanned, DurationError>
  {
    match rest
    case Err(e) => Err(e)
    case Ok(scan) => Ok(Scanned(negative, [head] + scan.parts, scan.end))
  }

  /** The parts from `pos` on; only the first part of the input may be negative. */
  function PartsFrom(s: string, pos: nat, mode: ScanMode, first: bool): (r: Result<Scanned, DurationError>)
    requires pos < |s|
    ensures r.Ok? ==> pos < r.value.end <= |s| && r.value.parts != []
    decreases |s| - pos
  {
    match PartAt(s, pos)
    case Err(e) => Err(e)
    case Ok(part) =>
      if part.number.negative && !first then
        Err(InvalidNumber)
      else
        var head := Part(part.number.mag, part.unit);
        match NextPart(s, part.end, mode)
        case None => Ok(Scanned(part.number.negative, [head], part.end))
        case Some(next) => Consed(head, part.number.negative, PartsFrom(s, next, mode, false))
  }

  // `PartsFrom` once the part at `pos` is known and allowed.
  lemma PartsFromStep(s: string, pos: nat, mode: ScanMode, first: bool, part: ScannedPart)
    requires pos < |s| && PartAt(s, pos) == Ok(part)
    requires part.number.negative ==> first
    ensures PartsFrom(s, pos, mode, first) ==
            match NextPart(s, part.end, mode)
            case None => Ok(Scanned(part.number.negative, [Part(part.number.mag, part.unit)], part.end))
            case Some(next) =>
              Consed(Part(part.number.mag, part.unit), part.number.negative, PartsFrom(s, next, mode, false))
  {}

  /** `apply_sign`: the leading sign covers every part. */
  function Signed(parts: seq<Part>, negative: bool): (r: seq<Part>)
    ensures |r| == |parts|
    ensures forall i :: 0 <= i < |parts| ==>
                          r[i] == Part(if negative then -parts[i].mag else parts[i].mag, parts[i].unit)
  {
    seq(|parts|, i requires 0 <= i < |parts| =>
      Part(if negative then -parts[i].mag else parts[i].mag, parts[i].unit))
  }

  function Start(s: string, mode: ScanMode): (r: Option<nat>)
    ensures r.Some? ==> r.value < |s|
  {
    match mode
    case Whole =>
      var pos := SkipWhile(s, 0, IsSeparator);
      if pos >= |s| then None else Some(pos)
    case Prefix =>
      if CanStart(s, 0) then Some(0) else None
  }

  function Finish(s: string, mode: ScanMode, scan: Scanned): Result<(DurationValue, nat), DurationError>
    requires scan.end <= |s|
  {
    var parts := Signed(scan.parts, scan.negative);
    var total := FoldParts(parts);
    if !IsFinite(total) then
      Err(NonFiniteSeconds)
    else
      var raw := if mode == Whole then Trim(s) else Trim(s[..scan.end]);
      Ok((DurationValue(raw, total, Some(parts)), scan.end))
  }

  /** What `scan_duration` returns: the duration and the position after its last part. */
  function DurationAt(s: string, mode: ScanMode): Result<(DurationValue, nat), DurationError> {
    match Start(s, mode)
    case None => Err(Empty)
    case Some(pos) =>
      match PartsFrom(s, pos, mode, true)
      case Err(e) => Err(e)
      case Ok(scan) => Finish(s, mode, scan)
  }

  /** What `DurationValue::parse` returns. */
  function Parsed(input: string): Result<DurationValue, DurationError> {
    var trimmed := Trim(input);
    if trimmed == [] then Err(Empty)
    else match DurationAt(trimmed, Whole)
         case Err(e) => Err(e)
         case Ok((d, _)) => Ok(d)
  }

  /** What `DurationValue::parse_prefix` returns. */
  function ParsedPrefix(input: string): Option<(DurationValue, nat)> {
    match DurationAt(input, Prefix)
    case Err(_) => None
    case Ok(r) => Some(r)
  }
}
