/**
 The scanning loops of `src/duration.rs`, each stepping a cursor as the source
 does and returning what the functions of `DurationScan` say.
 */
module DurationScanner {
  import opened Wrappers
  import opened Floats
  import opened Text
  import opened DurationUnits
  import opened TimeDeltas
  import opened DurationScan

  method SkipSeparators(s: string, start: nat) returns (pos: nat)
    requires start <= |s|
    ensures start <= pos <= |s|
    ensures pos == SkipWhile(s, start, IsSeparator)
  {
    pos := start;
    while pos < |s|
      invariant start <= pos <= |s|
      invariant SkipWhile(s, start, IsSeparator) == SkipWhile(s, pos, IsSeparator)
    {
      if !IsAsciiWhitespace(s[pos]) && s[pos] != ',' {
        break;
      }
      pos := pos + 1;
    }
  }

  method SkipWhitespace(s: string, start: nat) returns (pos: nat)
    requires start <= |s|
    ensures start <= pos <= |s|
    ensures pos == SkipWhile(s, start, IsAsciiWhitespace)
  {
    pos := start;
    while pos < |s|
      invariant start <= pos <= |s|
      invariant SkipWhile(s, start, IsAsciiWhitespace) == SkipWhile(s, pos, IsAsciiWhitespace)
    {
      if !IsAsciiWhitespace(s[pos]) {
        break;
      }
      pos := pos + 1;
    }
  }

  method ParsedNumber(s: string, start: nat, end: nat) returns (r: Result<(Number, nat), DurationError>)
    requires start <= end <= |s|
    ensures r == match LiteralValue(s[start..end]) case Err(e) => Err(e) case Ok(n) => Ok((n, end))
  {
    if start == end {
      return Err(MissingNumber);
    }
    match ParseFloat(s[start..end]) {
      case None =>
        return Err(MalformedNumber);
      case Some(number) =>
        if !IsFinite(number.mag) {
          return Err(NonFiniteNumber);
        }
        return Ok((number, end));
    }
  }

  // The digits-and-point loop of `parse_number`.
  method ScanMantissa(s: string, start: nat) returns (pos: nat, hasDigit: bool)
    requires start <= |s|
    ensures start <= pos <= |s|
    ensures pos == MantissaEnd(s, start, false) && hasDigit == HasDigit(s, start, pos)
  {
    pos := start;
    hasDigit := false;
    var hasDecimal := false;
    while pos < |s|
      invariant start <= pos <= |s|
      invariant MantissaEnd(s, start, false) == MantissaEnd(s, pos, hasDecimal)
      invariant hasDigit == HasDigit(s, start, pos)
    {
      if IsDigit(s[pos]) {
        hasDigit := true;
        pos := pos + 1;
      } else if s[pos] == '.' && !hasDecimal {
        hasDecimal := true;
        pos := pos + 1;
      } else {
        break;
      }
    }
  }

  // The exponent lookahead of `parse_number`.
  method ScanExponent(s: string, start: nat) returns (pos: nat)
    requires start <= |s|
    ensures start <= pos <= |s|
    ensures pos == ExponentEnd(s, start)
  {
    pos := start;
    if ExponentMarkAt(s, pos) {
      var expPos := pos + 1;
      if SignAt(s, expPos) {
        expPos := expPos + 1;
      }
      if DigitAt(s, expPos) {
        ghost var expStart := expPos;
        while DigitAt(s, expPos)
          invariant expStart <= expPos <= |s|
          invariant SkipWhile(s, expStart, IsDigit) == SkipWhile(s, expPos, IsDigit)
          decreases |s| - expPos
        {
          expPos := expPos + 1;
        }
        pos := expPos;
      }
    }
  }

  method ScanNumber(s: string, start: nat) returns (pos: nat)
    requires start <= |s|
    ensures start <= pos <= |s|
    ensures pos == NumberEnd(s, start)
  {
    pos := start;
    if SignAt(s, pos) {
      pos := pos + 1;
    }
    var hasDigit;
    pos, hasDigit := ScanMantissa(s, pos);
    if hasDigit {
      pos := ScanExponent(s, pos);
    }
  }

  method ParseNumber(s: string, start: nat) returns (r: Result<(Number, nat), DurationError>)
    requires start <= |s|
    ensures r == NumberAt(s, start)
  {
    if SignAt(s, start) && !DigitsAhead(s, start + 1) {
      return Err(InvalidNumber);
    }
    var end := ScanNumber(s, start);
    r := ParsedNumber(s, start, end);
  }

  method ParsedUnit(s: string, start: nat, end: nat) returns (r: Result<(DurationUnit, nat), DurationError>)
    requires start <= end <= |s|
    ensures r == match SpellingValue(s[start..end]) case Err(e) => Err(e) case Ok(u) => Ok((u, end))
  {
    if start == end {
      return Err(MissingUnit);
    }
    match ParseUnitName(s[start..end]) {
      case None => return Err(UnknownUnit);
      case Some(kind) => return Ok((kind, end));
    }
  }

  method ParseUnit(s: string, start: nat) returns (r: Result<(DurationUnit, nat), DurationError>)
    requires start <= |s|
    ensures r == UnitAt(s, start)
  {
    var pos := start;
    while pos < |s|
      invariant start <= pos <= |s|
      invariant SkipWhile(s, start, IsAlpha) == SkipWhile(s, pos, IsAlpha)
    {
      if !IsAlpha(s[pos]) {
        break;
      }
      pos := pos + 1;
    }
    r := ParsedUnit(s, start, pos);
  }

  method ScanPart(s: string, pos: nat) returns (r: Result<ScannedPart, DurationError>)
    requires pos <= |s|
    ensures r == PartAt(s, pos)
  {
    var number := ParseNumber(s, pos);
    if number.Err? {
      return Err(number.error);
    }
    var cursor := SkipWhitespace(s, number.value.1);
    var unit := ParseUnit(s, cursor);
    if unit.Err? {
      return Err(unit.error);
    }
    return Ok(ScannedPart(number.value.0, unit.value.0, unit.value.1));
  }

  /** Multiplies every magnitude by the sign, in place. */
  method ApplySign(parts: array<Part>, isNegative: bool)
    modifies parts
    ensures parts[..] == Signed(old(parts[..]), isNegative)
  {
    var sign := if isNegative then -1.0 else 1.0;
    var i := 0;
    while i < parts.Length
      invariant 0 <= i <= parts.Length
      invariant forall j :: i <= j < parts.Length ==> parts[j] == old(parts[j])
      invariant forall j :: 0 <= j < i ==> parts[j] == Signed(old(parts[..]), isNegative)[j]
    {
      parts[i] := parts[i].(mag := parts[i].mag * sign);
      i := i + 1;
    }
  }

  // What the scan still has to find, put behind the parts found so far.
  ghost function Resumed(found: seq<Part>, negative: bool, rest: Result<Scanned, DurationError>)
    : Result<Scanned, DurationError>
  {
    match rest
    case Err(e) => Err(e)
    case Ok(scan) => Ok(Scanned(if found == [] then scan.negative else negative, found + scan.parts, scan.end))
  }

  lemma ResumedStart(rest: Result<Scanned, DurationError>)
    ensures Resumed([], false, rest) == rest
  {
    if rest.Ok? { assert [] + rest.value.parts == rest.value.parts; }
  }

  lemma ResumedCons(found: seq<Part>, negative: bool, head: Part, sign: bool, rest: Result<Scanned, DurationError>)
    ensures Resumed(found, negative, Consed(head, sign, rest)) ==
            Resumed(found + [head], if found == [] then sign else negative, rest)
  {
    if rest.Ok? {
      assert found + ([head] + rest.value.parts) == (found + [head]) + rest.value.parts;
    }
  }

  // One turn of the scan: the part at `pos` joins those found.
  lemma ResumedStep(s: string, pos: nat, mode: ScanMode, found: seq<Part>, negative: bool, part: ScannedPart)
    requires pos < |s| && PartAt(s, pos) == Ok(part)
    requires !(part.number.negative && found != [])
    ensures var longer := found + [Part(part.number.mag, part.unit)];
            var sign := if found == [] then part.number.negative else negative;
            Resumed(found, negative, PartsFrom(s, pos, mode, found == [])) ==
            match NextPart(s, part.end, mode)
            case None => Ok(Scanned(sign, longer, part.end))
            case Some(next) => Resumed(longer, sign, PartsFrom(s, next, mode, false))
  {
    PartsFromStep(s, pos, mode, found == [], part);
    var next := NextPart(s, part.end, mode);
    if next.Some? {
      ResumedCons(found, negative, Part(part.number.mag, part.unit), part.number.negative,
                  PartsFrom(s, next.value, mode, false));
    }
  }

  method NextStart(s: string, end: nat, mode: ScanMode) returns (next: Option<nat>)
    requires end <= |s|
    ensures next == NextPart(s, end, mode)
  {
    match mode {
      case Whole =>
        var pos := SkipSeparators(s, end);
        if pos >= |s| {
          return None;
        }
        return Some(pos);
      case Prefix =>
        var nextPos := SkipWhitespace(s, end);
        if nextPos < |s| && CanStart(s, nextPos) {
          return Some(nextPos);
        }
        return None;
    }
  }

  method ScanParts(s: string, start: nat, mode: ScanMode) returns (r: Result<Scanned, DurationError>)
    requires start < |s|
    ensures r == PartsFrom(s, start, mode, true)
  {
    var pos := start;
    var isNegative := false;
    var rawParts: seq<Part> := [];
    ResumedStart(PartsFrom(s, start, mode, true));
    while true
      invariant pos < |s|
      invariant rawParts == [] ==> !isNegative
      invariant PartsFrom(s, start, mode, true)
             == Resumed(rawParts, isNegative, PartsFrom(s, pos, mode, rawParts == []))
      decreases |s| - pos
    {
      var part := ScanPart(s, pos);
      if part.Err? {
        return Err(part.error);
      }
      var number := part.value.number;
      if number.negative {
        if rawParts != [] {
          return Err(InvalidNumber);
        }
        isNegative := true;
      }
      ResumedStep(s, pos, mode, rawParts, isNegative, part.value);
      rawParts := rawParts + [Part(number.mag, part.value.unit)];
      var lastEnd := part.value.end;
      var next := NextStart(s, lastEnd, mode);
      if next.None? {
        return Ok(Scanned(isNegative, rawParts, lastEnd));
      }
      pos := next.value;
    }
  }

  method ScanDuration(s: string, mode: ScanMode) returns (r: Result<(DurationValue, nat), DurationError>)
    ensures r == DurationAt(s, mode)
  {
    hide PartsFrom, CanStart, Trim, FoldParts, IsFinite;
    var pos := 0;
    match mode {
      case Whole =>
        pos := SkipSeparators(s, 0);
        if pos >= |s| {
          return Err(Empty);
        }
      case Prefix =>
        if |s| == 0 || !CanStart(s, pos) {
          return Err(Empty);
        }
    }
    var scan := ScanParts(s, pos, mode);
    if scan.Err? {
      return Err(scan.error);
    }
    var found := scan.value.parts;
    var parts := new Part[|found|](i requires 0 <= i < |found| => found[i]);
    assert parts[..] == found;
    ApplySign(parts, scan.value.negative);
    var total := FoldParts(parts[..]);
    if !IsFinite(total) {
      return Err(NonFiniteSeconds);
    }
    var raw := if mode == Whole then Trim(s) else Trim(s[..scan.value.end]);
    return Ok((DurationValue(raw, total, Some(parts[..])), scan.value.end));
  }

  method Parse(input: string) returns (r: Result<DurationValue, DurationError>)
    ensures r == Parsed(input)
  {
    var trimmed := Trim(input);
    if trimmed == [] {
      return Err(Empty);
    }
    var scan := ScanDuration(trimmed, Whole);
    if scan.Err? {
      return Err(scan.error);
    }
    return Ok(scan.value.0);
  }

  method ParsePrefix(input: string) returns (r: Option<(DurationValue, nat)>)
    ensures r == ParsedPrefix(input)
  {
    var scan := ScanDuration(input, Prefix);
    if scan.Err? {
      return None;
    }
    return Some(scan.value);
  }
}
