/**
 The language of durations, by the spans of its pieces: numbers with units, white space
 allowed between the two, separators after each. The scan accepts exactly this language,
 with only the first piece negative, and reads it as exactly its pieces.
 */
module DurationGrammar {
  import opened Wrappers
  import opened Floats
  import opened Text
  import opened DurationUnits
  import opened TimeDeltas
  import opened DurationScan
  import opened DurationModes
  import opened DurationNumbers

  // ---------------------------------------------------------------- units

  /** `text` is the lower-case `name` with any of its letters in upper case. */
  predicate InAnyCase(text: string, name: string) {
    |text| == |name|
    && forall i :: 0 <= i < |name| ==>
         text[i] == name[i] || ('A' <= text[i] <= 'Z' && text[i] as int + 32 == name[i] as int)
  }

  predicate NamesUnit(text: string, unit: DurationUnit) {
    exists name <- Spellings(unit) :: InAnyCase(text, name)
  }

  lemma LowerIs(text: string, name: string)
    requires forall i :: 0 <= i < |name| ==> 'a' <= name[i] <= 'z'
    ensures InAnyCase(text, name) <==> Lower(text) == name
  {
    if InAnyCase(text, name) {
      assert forall i :: 0 <= i < |name| ==> Lower(text)[i] == LowerChar(text[i]) == name[i];
    }
  }

  lemma SpellingIsLower(name: string, unit: DurationUnit)
    requires name in Spellings(unit)
    ensures 0 < |name| <= MAX_SPELLING && name[0] != 'e'
    ensures forall i :: 0 <= i < |name| ==> 'a' <= name[i] <= 'z'
  {}

  lemma LowerNamesUnit(text: string, unit: DurationUnit)
    ensures NamesUnit(text, unit) <==> Lower(text) in Spellings(unit)
  {
    hide Spellings, InAnyCase;
    if name :| name in Spellings(unit) && InAnyCase(text, name) {
      SpellingIsLower(name, unit);
      LowerIs(text, name);
    }
    if Lower(text) in Spellings(unit) {
      SpellingIsLower(Lower(text), unit);
      LowerIs(text, Lower(text));
    }
  }

  /** A spelling in any case names its unit, and nothing else names a unit. */
  lemma SpellingNamesUnit(text: string, unit: DurationUnit)
    ensures ParseUnitName(text) == Some(unit) <==> NamesUnit(text, unit)
    ensures NamesUnit(text, unit) ==> text != [] && text[0] != 'e' && text[0] != 'E'
  {
    hide Spellings, NamesUnit;
    var lower := Lower(text);
    LowerNamesUnit(text, unit);
    LookUpFinds(lower, Millisecond);
    if lower in Spellings(unit) {
      SpellingIsLower(lower, unit);
      SpelledOnce(lower, unit);
    }
  }

  lemma {:induction false} LookUpFinds(lower: string, unit: DurationUnit)
    ensures match LookUp(lower, unit)
            case Some(found) => lower in Spellings(found)
            case None => forall other :: Rank(other) <= Rank(unit) ==> lower !in Spellings(other)
    decreases Rank(unit)
  {
    hide Spellings;
    if lower !in Spellings(unit) {
      match Larger(unit)
      case Some(next) => LookUpFinds(lower, next);
      case None =>
    }
    assert forall other :: Rank(other) == Rank(unit) ==> other == unit;
  }

  // What tells a unit's names from all others: the first letter, and one more after an `m`.
  function MarkOf(name: string): string
    requires name != ""
  {
    if name[0] != 'm' || |name| == 1 then [name[0]]
    else if name[1] == 'i' && |name| > 2 then ['m', name[2]]
    else ['m', name[1]]
  }

  function UnitMarks(unit: DurationUnit): set<string> {
    match unit
    case Millisecond => {"ms", "ml"}
    case Second => {"s"}
    case Minute => {"m", "mn"}
    case Hour => {"h"}
    case Day => {"d"}
    case Week => {"w"}
    case Month => {"mo"}
    case Year => {"y"}
  }

  lemma NameHasMark(name: string, unit: DurationUnit)
    requires name in Spellings(unit)
    ensures name != "" && MarkOf(name) in UnitMarks(unit)
  {}

  /** The units share no spelling. */
  lemma SpelledOnce(name: string, unit: DurationUnit)
    requires name in Spellings(unit)
    ensures forall other :: name in Spellings(other) ==> other == unit
  {
    hide Spellings, MarkOf;
    NameHasMark(name, unit);
    forall other | name in Spellings(other) ensures other == unit {
      NameHasMark(name, other);
    }
  }

  /** Exactly the names of the documentation, abbreviated and in full, one and many, in any case. */
  lemma DocumentedNames(unit: DurationUnit)
    ensures var names := match unit
              case Millisecond => {"ms", "millisecond", "milliseconds"}
              case Second => {"s", "sec", "secs", "second", "seconds"}
              case Minute => {"m", "min", "mins", "minute", "minutes"}
              case Hour => {"h", "hr", "hrs", "hour", "hours"}
              case Day => {"d", "day", "days"}
              case Week => {"w", "wk", "wks", "week", "weeks"}
              case Month => {"mo", "mos", "month", "months"}
              case Year => {"y", "yr", "yrs", "year", "years"};
            forall text :: ParseUnitName(text) == Some(unit) <==> exists name <- names :: InAnyCase(text, name)
  {
    hide ParseUnitName, InAnyCase;
    forall text ensures ParseUnitName(text) == Some(unit) <==> exists name <- Spellings(unit) :: InAnyCase(text, name) {
      SpellingNamesUnit(text, unit);
    }
  }

  /** Each unit is a whole number of the one below; months and years are thirty days and 365. */
  lemma UnitRatios()
    ensures FixedSeconds(Second) == 1.0 && FixedSeconds(Second) == 1_000.0 * FixedSeconds(Millisecond)
    ensures FixedSeconds(Minute) == 60.0 * FixedSeconds(Second) && FixedSeconds(Hour) == 60.0 * FixedSeconds(Minute)
    ensures FixedSeconds(Day) == 24.0 * FixedSeconds(Hour) && FixedSeconds(Week) == 7.0 * FixedSeconds(Day)
    ensures FixedSeconds(Month) == 30.0 * FixedSeconds(Day) && FixedSeconds(Year) == 365.0 * FixedSeconds(Day)
  {}

  // ---------------------------------------------------------------- pieces

  /** A number, white space up to `gapEnd`, unit letters up to `end`, separators up to `next`. */
  datatype Piece = Piece(number: NumberSpan, gapEnd: nat, unit: DurationUnit, end: nat, next: nat)

  predicate IsSpace(c: char) {
    c == ' ' || c == '\t' || c == '\n' || c == '\r' || c as int == 12
  }

  predicate Separates(c: char) {
    IsSpace(c) || c == ','
  }

  lemma SpacesAndSeparators()
    ensures forall c :: IsSpace(c) <==> IsAsciiWhitespace(c)
    ensures forall c :: Separates(c) <==> IsSeparator(c)
  {}

  predicate All(s: string, from: nat, to: nat, p: char -> bool)
    requires from <= to <= |s|
  {
    forall i :: from <= i < to ==> p(s[i])
  }

  predicate AlphaAt(s: string, pos: nat) {
    pos < |s| && IsAlpha(s[pos])
  }

  predicate IsPiece(s: string, p: Piece) {
    && IsNumber(s, p.number) && IsFinite(Magnitude(s, p.number))
    && p.number.end <= p.gapEnd < p.end <= |s|
    && All(s, p.number.end, p.gapEnd, IsSpace)
    && All(s, p.gapEnd, p.end, IsAlpha) && !AlphaAt(s, p.end)
    && NamesUnit(s[p.gapEnd..p.end], p.unit)
  }

  function PartOf(s: string, p: Piece): Part
    requires IsPiece(s, p)
  {
    Part(Magnitude(s, p.number), p.unit)
  }

  lemma UnitReads(s: string, p: Piece)
    requires IsPiece(s, p)
    ensures SkipWhile(s, p.number.end, IsAsciiWhitespace) == p.gapEnd
    ensures UnitAt(s, p.gapEnd) == Ok((p.unit, p.end))
    ensures s[p.gapEnd] != 'e' && s[p.gapEnd] != 'E'
  {
    hide IsNumber, Magnitude, IsFinite, NamesUnit;
    SpacesAndSeparators();
    assert IsAlpha(s[p.gapEnd]);
    SkipWhileIs(s, p.number.end, IsAsciiWhitespace, p.gapEnd);
    SkipWhileIs(s, p.gapEnd, IsAlpha, p.end);
    SpellingNamesUnit(s[p.gapEnd..p.end], p.unit);
    assert s[p.gapEnd..p.end][0] == s[p.gapEnd];
  }

  lemma PieceStops(s: string, p: Piece)
    requires IsPiece(s, p)
    ensures Stops(s, p.number)
  {
    hide Magnitude, IsFinite, NamesUnit;
    UnitReads(s, p);
    assert IsAlpha(s[p.gapEnd]);
    var n := p.number;
    assert n.end < p.gapEnd ==> IsAsciiWhitespace(s[n.end]);
  }

  /** A piece is read as its sign, magnitude and unit, whatever stands before and after it. */
  lemma PieceReads(s: string, p: Piece)
    requires IsPiece(s, p)
    ensures PartAt(s, p.number.pos)
         == Ok(ScannedPart(Number(IsNegative(s, p.number), Magnitude(s, p.number)), p.unit, p.end))
  {
    hide Magnitude, IsFinite, NamesUnit, NumberAt, UnitAt;
    PieceStops(s, p);
    NumberReads(s, p.number);
    UnitReads(s, p);
  }

  /** Where a part is read, there is a piece. */
  lemma PieceIsThere(s: string, pos: nat) returns (p: Piece)
    requires pos <= |s| && PartAt(s, pos).Ok?
    ensures IsPiece(s, p) && p.number.pos == pos && p.next == p.end == PartAt(s, pos).value.end
  {
    hide NamesUnit, NumberAt, Magnitude, IsFinite, ParseUnitName;
    SpacesAndSeparators();
    NumberErrors(s, pos);
    var n := NumberIsThere(s, pos);
    NumberReads(s, n);
    var gapEnd, end := SkipWhile(s, n.end, IsAsciiWhitespace), PartAt(s, pos).value.end;
    SkipWhileSpan(s, n.end, IsAsciiWhitespace);
    SkipWhileSpan(s, gapEnd, IsAlpha);
    var unit := PartAt(s, pos).value.unit;
    SpellingNamesUnit(s[gapEnd..end], unit);
    p := Piece(n, gapEnd, unit, end, end);
  }

  /** Why no part is read: the number's error, or what stands where the unit should. */
  lemma PartErrors(s: string, n: NumberSpan)
    requires IsNumber(s, n) && Stops(s, n) && IsFinite(Magnitude(s, n))
    ensures var unitAt := SkipWhile(s, n.end, IsAsciiWhitespace);
            var unitEnd := SkipWhile(s, unitAt, IsAlpha);
            && (PartAt(s, n.pos) == Err(MissingUnit) <==> !AlphaAt(s, unitAt))
            && (PartAt(s, n.pos) == Err(UnknownUnit) <==>
                  AlphaAt(s, unitAt) && forall unit :: !NamesUnit(s[unitAt..unitEnd], unit))
            && (PartAt(s, n.pos).Err? ==> PartAt(s, n.pos).error in {MissingUnit, UnknownUnit})
  {
    hide NamesUnit, NumberAt, Magnitude, IsFinite, ParseUnitName;
    SpacesAndSeparators();
    NumberReads(s, n);
    var unitAt := SkipWhile(s, n.end, IsAsciiWhitespace);
    var unitEnd := SkipWhile(s, unitAt, IsAlpha);
    SkipWhileSpan(s, unitAt, IsAlpha);
    var text := s[unitAt..unitEnd];
    forall unit ensures ParseUnitName(text) == Some(unit) <==> NamesUnit(text, unit) {
      SpellingNamesUnit(text, unit);
    }
  }

  // ---------------------------------------------------------------- sequences of pieces

  /**
   Whether the piece can be the last one: separators up to the end of a whole input, and
   for a prefix no number after white space.
   */
  predicate Ends(s: string, p: Piece, mode: ScanMode)
    requires p.end <= |s|
  {
    match mode
    case Whole => p.end <= p.next == |s| && All(s, p.end, p.next, Separates)
    case Prefix => p.next == p.end && !CanStart(s, SkipWhile(s, p.end, IsAsciiWhitespace))
  }

  /**
   Whether something comes after the piece, at `next`: after separators in a whole input,
   and for a prefix a number after white space.
   */
  predicate LeadsOn(s: string, p: Piece, mode: ScanMode)
    requires p.end <= |s|
  {
    p.end <= p.next < |s|
    && match mode
       case Whole => All(s, p.end, p.next, Separates) && !Separates(s[p.next])
       case Prefix => All(s, p.end, p.next, IsSpace) && CanStart(s, p.next)
  }

  /** The text from `pos` on is these pieces, up to where the mode lets it end. */
  predicate Spelled(s: string, pos: nat, ps: seq<Piece>, mode: ScanMode)
    decreases |ps|
  {
    && ps != [] && ps[0].number.pos == pos && IsPiece(s, ps[0])
    && if |ps| == 1 then Ends(s, ps[0], mode)
       else LeadsOn(s, ps[0], mode) && Spelled(s, ps[0].next, ps[1..], mode)
  }

  function PartsOf(s: string, pos: nat, ps: seq<Piece>, mode: ScanMode): seq<Part>
    requires Spelled(s, pos, ps, mode)
    decreases |ps|
  {
    [PartOf(s, ps[0])] + if |ps| == 1 then [] else PartsOf(s, ps[0].next, ps[1..], mode)
  }

  /** A minus on a piece after the first. */
  predicate LateMinus(s: string, ps: seq<Piece>) {
    exists i :: 0 < i < |ps| && IsNegative(s, ps[i].number)
  }

  lemma NextIsThere(s: string, p: Piece, mode: ScanMode)
    requires p.end <= |s|
    ensures Ends(s, p, mode) ==> NextPart(s, p.end, mode) == None
    ensures LeadsOn(s, p, mode) ==> NextPart(s, p.end, mode) == Some(p.next)
  {
    SpacesAndSeparators();
    if Ends(s, p, mode) && mode == Whole { SkipWhileIs(s, p.end, IsSeparator, p.next); }
    if LeadsOn(s, p, mode) {
      if mode == Prefix { CanStartIsNoSeparator(s, p.next); }
      SkipWhileIs(s, p.end, if mode == Whole then IsSeparator else IsAsciiWhitespace, p.next);
    }
  }

  /** Pieces are read as their parts, or refused for a minus after the first. */
  lemma {:induction false} PiecesRead(s: string, pos: nat, ps: seq<Piece>, mode: ScanMode, first: bool)
    requires pos < |s| && Spelled(s, pos, ps, mode)
    ensures PartsFrom(s, pos, mode, first) ==
            if LateMinus(s, ps) || (!first && IsNegative(s, ps[0].number)) then Err(InvalidNumber)
            else Ok(Scanned(IsNegative(s, ps[0].number), PartsOf(s, pos, ps, mode), ps[|ps| - 1].end))
    decreases |ps|
  {
    hide IsPiece, Ends, LeadsOn, NextPart, PartAt;
    var p := ps[0];
    PieceReads(s, p);
    PieceInside(s, p);
    NextIsThere(s, p, mode);
    MinusStep(s, ps);
    assert [PartOf(s, p)] + [] == [PartOf(s, p)];
    if |ps| > 1 {
      NextInside(s, p, mode);
      PiecesRead(s, p.next, ps[1..], mode, false);
    }
  }

  lemma PieceInside(s: string, p: Piece)
    requires IsPiece(s, p)
    ensures p.number.pos < p.end <= |s|
  {}

  lemma NextInside(s: string, p: Piece, mode: ScanMode)
    requires p.end <= |s| && LeadsOn(s, p, mode)
    ensures p.end <= p.next < |s|
  {}

  lemma MinusStep(s: string, ps: seq<Piece>)
    requires ps != []
    ensures LateMinus(s, ps) <==> |ps| > 1 && (IsNegative(s, ps[1].number) || LateMinus(s, ps[1..]))
  {
    if LateMinus(s, ps) {
      var i :| 0 < i < |ps| && IsNegative(s, ps[i].number);
      assert i > 1 ==> ps[1..][i - 1] == ps[i];
    }
    if |ps| > 1 && LateMinus(s, ps[1..]) {
      var i :| 0 < i < |ps[1..]| && IsNegative(s, ps[1..][i].number);
      assert ps[i + 1] == ps[1..][i];
    }
  }

  lemma NextLeads(s: string, p: Piece, mode: ScanMode)
    requires p.end <= |s|
    ensures match NextPart(s, p.end, mode)
            case None => Ends(s, p.(next := if mode == Whole then |s| else p.end), mode)
            case Some(next) => LeadsOn(s, p.(next := next), mode)
  {
    SpacesAndSeparators();
    SkipWhileSpan(s, p.end, IsSeparator);
    SkipWhileSpan(s, p.end, IsAsciiWhitespace);
  }

  /** Where the scan succeeds, there are pieces. */
  lemma {:induction false} PiecesAreThere(s: string, pos: nat, mode: ScanMode, first: bool) returns (ps: seq<Piece>)
    requires pos < |s| && PartsFrom(s, pos, mode, first).Ok?
    ensures Spelled(s, pos, ps, mode)
    decreases |s| - pos
  {
    hide IsPiece, Ends, LeadsOn, NextPart, PartAt;
    var p := PieceIsThere(s, pos);
    NextLeads(s, p, mode);
    match NextPart(s, p.end, mode)
    case None =>
      var last := p.(next := if mode == Whole then |s| else p.end);
      SamePiece(s, p, last.next);
      ps := [last];
    case Some(next) =>
      var rest := PiecesAreThere(s, next, mode, false);
      var head := p.(next := next);
      SamePiece(s, p, next);
      ps := [head] + rest;
      assert ps[1..] == rest;
  }

  lemma SamePiece(s: string, p: Piece, next: nat)
    ensures IsPiece(s, p) <==> IsPiece(s, p.(next := next))
  {}

  // ---------------------------------------------------------------- whole texts

  /** The text is these pieces: behind separators if the whole of it counts, at once if a prefix does. */
  predicate Spelling(s: string, mode: ScanMode, lead: nat, ps: seq<Piece>) {
    lead < |s| && Spelled(s, lead, ps, mode)
    && match mode
       case Whole => All(s, 0, lead, Separates) && !Separates(s[lead])
       case Prefix => lead == 0
  }

  /** The duration a spelling means: its parts under the sign of the first, and their sum. */
  function Meaning(s: string, mode: ScanMode, lead: nat, ps: seq<Piece>): DurationValue
    requires Spelling(s, mode, lead, ps) && ps[|ps| - 1].end <= |s|
  {
    var parts := Signed(PartsOf(s, lead, ps, mode), IsNegative(s, ps[0].number));
    var raw := if mode == Whole then Trim(s) else Trim(s[..ps[|ps| - 1].end]);
    DurationValue(raw, FoldParts(parts), Some(parts))
  }

  lemma {:induction false} LastEndsInside(s: string, pos: nat, ps: seq<Piece>, mode: ScanMode)
    requires Spelled(s, pos, ps, mode)
    ensures pos < ps[|ps| - 1].end <= |s|
    decreases |ps|
  {
    hide IsPiece, Ends;
    PieceInside(s, ps[0]);
    if |ps| > 1 { LastEndsInside(s, ps[0].next, ps[1..], mode); }
  }

  /** A spelling is read as what it means, unless a later piece is negative or the sum too large. */
  lemma SpellingReads(s: string, mode: ScanMode, lead: nat, ps: seq<Piece>)
    requires Spelling(s, mode, lead, ps)
    ensures ps[|ps| - 1].end <= |s|
    ensures var d := Meaning(s, mode, lead, ps);
            DurationAt(s, mode) ==
            if LateMinus(s, ps) then Err(InvalidNumber)
            else if !IsFinite(d.seconds) then Err(NonFiniteSeconds)
            else Ok((d, ps[|ps| - 1].end))
  {
    hide IsPiece, PartsFrom, FoldParts, IsFinite, Trim;
    LastEndsInside(s, lead, ps, mode);
    if mode == Whole {
      SpacesAndSeparators();
      SkipWhileIs(s, 0, IsSeparator, lead);
    } else {
      PieceBegins(s, ps[0]);
    }
    PiecesRead(s, lead, ps, mode, true);
  }

  lemma PieceBegins(s: string, p: Piece)
    requires IsPiece(s, p)
    ensures CanStart(s, p.number.pos)
  {
    NumberBegins(s, p.number);
  }

  /** What is read is spelled. */
  lemma ReadIsSpelling(s: string, mode: ScanMode) returns (lead: nat, ps: seq<Piece>)
    requires DurationAt(s, mode).Ok?
    ensures Spelling(s, mode, lead, ps)
  {
    hide IsPiece, PartsFrom, Spelled, Finish;
    lead := Start(s, mode).value;
    SpacesAndSeparators();
    SkipWhileSpan(s, 0, IsSeparator);
    ps := PiecesAreThere(s, lead, mode, true);
  }

  /** Whether `d` is what the text means, read up to `end`. */
  ghost predicate Means(s: string, mode: ScanMode, d: DurationValue, end: nat) {
    exists lead, ps :: MeansBy(s, mode, d, end, lead, ps)
  }

  predicate MeansBy(s: string, mode: ScanMode, d: DurationValue, end: nat, lead: nat, ps: seq<Piece>) {
    Spelling(s, mode, lead, ps) && !LateMinus(s, ps)
    && ps[|ps| - 1].end == end <= |s| && d == Meaning(s, mode, lead, ps) && IsFinite(d.seconds)
  }

  /** The scan accepts exactly the spellings with no later minus and a finite sum, as what they mean. */
  lemma ScansExactlySpellings(s: string, mode: ScanMode, d: DurationValue, end: nat)
    ensures DurationAt(s, mode) == Ok((d, end)) <==> Means(s, mode, d, end)
  {
    hide DurationAt, Spelling, Meaning, IsFinite, LateMinus;
    if DurationAt(s, mode) == Ok((d, end)) {
      var lead, ps := ReadIsSpelling(s, mode);
      SpellingReads(s, mode, lead, ps);
      assert MeansBy(s, mode, d, end, lead, ps);
    }
    if Means(s, mode, d, end) {
      var lead, ps :| MeansBy(s, mode, d, end, lead, ps);
      SpellingReads(s, mode, lead, ps);
    }
  }

  /** `parse` accepts exactly the trimmed spellings, as what they mean. */
  lemma ParsesExactlySpellings(input: string, d: DurationValue)
    ensures Parsed(input) == Ok(d) <==> exists end: nat :: Means(Trim(input), Whole, d, end)
  {
    hide DurationAt, Means, Trim;
    var t := Trim(input);
    if Parsed(input) == Ok(d) {
      ScansExactlySpellings(t, Whole, d, DurationAt(t, Whole).value.1);
    }
    if end: nat :| Means(t, Whole, d, end) {
      ScansExactlySpellings(t, Whole, d, end);
      NothingMeansNothing(t, Whole, d, end);
    }
  }

  lemma NothingMeansNothing(s: string, mode: ScanMode, d: DurationValue, end: nat)
    requires Means(s, mode, d, end)
    ensures s != []
  {}

  /** `parse_prefix` accepts exactly the spellings at the front, as what they mean. */
  lemma PrefixesExactlySpellings(input: string, d: DurationValue, end: nat)
    ensures ParsedPrefix(input) == Some((d, end)) <==> Means(input, Prefix, d, end)
  {
    hide DurationAt, Means;
    ScansExactlySpellings(input, Prefix, d, end);
  }

  /** A minus on a piece after the first makes a whole text an invalid number. */
  lemma LateMinusIsRefused(input: string, lead: nat, ps: seq<Piece>)
    requires Spelling(Trim(input), Whole, lead, ps) && LateMinus(Trim(input), ps)
    ensures Parsed(input) == Err(InvalidNumber)
  {
    hide DurationAt, Spelled, LateMinus, Trim;
    SpellingReads(Trim(input), Whole, lead, ps);
  }

  /** The same minus leaves no prefix at all. */
  lemma LateMinusIsNoPrefix(input: string, ps: seq<Piece>)
    requires Spelling(input, Prefix, 0, ps) && LateMinus(input, ps)
    ensures ParsedPrefix(input) == None
  {
    hide DurationAt, Spelled, LateMinus;
    SpellingReads(input, Prefix, 0, ps);
  }

  // ---------------------------------------------------------------- the first error

  /** Pieces, none negative after the first, that lead on to `q`. */
  predicate Leading(s: string, pos: nat, ps: seq<Piece>, mode: ScanMode, q: nat)
    decreases |ps|
  {
    if ps == [] then pos == q
    else
      && ps[0].number.pos == pos && IsPiece(s, ps[0]) && LeadsOn(s, ps[0], mode)
      && Leading(s, ps[0].next, ps[1..], mode, q)
  }

  /** The first part that cannot be read decides the error. */
  lemma {:induction false} FirstErrorStands(s: string, pos: nat, ps: seq<Piece>, mode: ScanMode, q: nat, first: bool)
    requires pos < |s| && q < |s| && Leading(s, pos, ps, mode, q) && PartAt(s, q).Err?
    requires !LateMinus(s, ps) && (first || ps == [] || !IsNegative(s, ps[0].number))
    ensures PartsFrom(s, pos, mode, first) == Err(PartAt(s, q).error)
    decreases |ps|
  {
    hide IsPiece, LeadsOn, NextPart, PartAt;
    if ps != [] {
      var p := ps[0];
      PieceReads(s, p);
      PieceInside(s, p);
      NextInside(s, p, mode);
      NextIsThere(s, p, mode);
      MinusStep(s, ps);
      FirstErrorStands(s, p.next, ps[1..], mode, q, false);
    }
  }
}
