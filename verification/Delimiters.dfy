/**
 The delimiter stack of `src/delimiter.rs`, updated in place, and the loop of
 `find_closing` over it, proved against the scan of `DelimiterScan`.
 */
module Delimiters {
  import opened Wrappers
  import opened Text
  import opened DelimiterScan
  import opened DelimiterGrammar

  /** A fixed array of entries, of which the first `len` are open. */
  class DelimiterStack {
    const entries: array<DelimiterType>
    var len: nat
    var activeQuote: Option<QuoteType>

    ghost predicate Valid()
      reads this
    {
      entries.Length == MAX_DELIMITER_DEPTH && len <= MAX_DELIMITER_DEPTH
    }

    ghost function Contents(): (s: Stack)
      requires Valid()
      reads this, entries
    {
      entries[..len]
    }

    ghost function Reading(escaped: bool): State
      requires Valid()
      reads this, entries
    {
      State(Contents(), activeQuote, escaped)
    }

    constructor WithRoot(kind: DelimiterType)
      ensures Valid() && fresh(entries)
      ensures Contents() == [kind] && activeQuote == None
    {
      entries := new DelimiterType[MAX_DELIMITER_DEPTH](_ => Parenthesis);
      len := 0;
      activeQuote := None;
      new;
      PushEntry(kind);
    }

    /** A full stack drops the entry. */
    method PushEntry(kind: DelimiterType)
      requires Valid()
      modifies this`len, entries
      ensures Valid()
      ensures Contents() == Push(old(Contents()), kind, Some(MAX_DELIMITER_DEPTH))
    {
      if len < entries.Length {
        entries[len] := kind;
        len := len + 1;
      }
    }

    function CurrentKind(): (r: Option<DelimiterType>)
      requires Valid()
      reads this, entries
      ensures r == if Contents() == [] then None else Some(Top(Contents()))
    {
      if len == 0 then None else Some(entries[len - 1])
    }

    method AdvanceQuoteState(ch: char) returns (consumed: bool)
      requires Valid()
      modifies this`activeQuote
      ensures Valid()
      ensures consumed <==> old(activeQuote).Some? || QuoteFromChar(ch).Some?
      ensures !consumed ==> activeQuote == old(activeQuote)
      ensures old(activeQuote).Some? ==>
                activeQuote == if ch == QuoteChar(old(activeQuote).value) then None else old(activeQuote)
      ensures old(activeQuote).None? ==> activeQuote == QuoteFromChar(ch)
    {
      if activeQuote.Some? {
        if ch == QuoteChar(activeQuote.value) { activeQuote := None; }
        consumed := true;
      } else if QuoteFromChar(ch).Some? {
        activeQuote := QuoteFromChar(ch);
        consumed := true;
      } else {
        consumed := false;
      }
    }

    method CheckDoubleBracketClose(rest: string) returns (closed: Option<bool>)
      requires Valid()
      modifies this`len
      ensures Valid()
      ensures closed.Some? <==> CurrentKindWas(old(Contents()), DoubleBracket) && StartsTwice(rest, ']')
      ensures closed.None? ==> len == old(len)
      ensures closed.Some? ==> Contents() == Pop(old(Contents())) && closed.value == (Contents() == [])
    {
      if CurrentKind() == Some(DoubleBracket) && StartsTwice(rest, ']') {
        len := len - 1;
        closed := Some(len == 0);
      } else {
        closed := None;
      }
    }

    method HandleCharClose(ch: char) returns (r: Result<bool, ()>)
      requires Valid()
      modifies this`len
      ensures Valid()
      ensures var before := old(Contents());
              if before == [] then r == Err(()) && len == old(len)
              else if MatchesCharClose(Top(before), ch) then Contents() == Pop(before) && r == Ok(Contents() == [])
              else len == old(len) && r == if Top(before) == DoubleBracket && ch == ']' then Ok(false) else Err(())
    {
      var current := CurrentKind();
      if current.None? { return Err(()); }
      if MatchesCharClose(current.value, ch) {
        len := len - 1;
        r := Ok(len == 0);
      } else if current.value == DoubleBracket && ch == ']' {
        r := Ok(false);
      } else {
        r := Err(());
      }
    }
  }

  predicate CurrentKindWas(stack: Stack, kind: DelimiterType) {
    stack != [] && Top(stack) == kind
  }

  /** Whether `ch` belongs to a backslash escape, and the escape state after it. */
  method AdvanceEscaped(ch: char, escaped: bool) returns (consumed: bool, after: bool)
    ensures consumed <==> escaped || ch == '\\'
    ensures after <==> !escaped && ch == '\\'
  {
    if escaped {
      consumed, after := true, false;
    } else if ch == '\\' {
      consumed, after := true, true;
    } else {
      consumed, after := false, false;
    }
  }

  /** The scan from the start, once the first `i` characters have been read. */
  ghost predicate ReadSoFar(kind: DelimiterType, input: string, i: nat, st: State) {
    i <= |input| && st.stack != []
    && Closing(kind, input) == Shift(i, Scan(input[i..], st, Some(MAX_DELIMITER_DEPTH)))
  }

  lemma TurnReads(kind: DelimiterType, input: string, i: nat, st: State)
    requires ReadSoFar(kind, input, i, st) && i < |input|
    ensures match Next(input[i..], st, Some(MAX_DELIMITER_DEPTH))
            case Found => Closing(kind, input) == Some(i)
            case Refused => Closing(kind, input) == None
            case Read(n, next) =>
              ReadSoFar(kind, input, i + n, next) && ByteLen(input[..i + 1]) == ByteLen(input[..i]) + Utf8Len(input[i])
  {
    hide Next;
    ByteLenStep(input, i);
    match Next(input[i..], st, Some(MAX_DELIMITER_DEPTH))
    case Read(n, next) => assert input[i..][n..] == input[i + n..];
    case _ =>
  }

  lemma StartsReading(kind: DelimiterType, input: string)
    ensures ReadSoFar(kind, input, 0, Open([kind])) && ByteLen(input[..0]) == 0
  {}

  lemma StopsReading(kind: DelimiterType, input: string, st: State)
    requires ReadSoFar(kind, input, |input|, st)
    ensures Closing(kind, input) == None
  {}

  lemma TwoBytes(input: string, i: nat, c: char)
    requires i < |input| && StartsTwice(input[i..], c) && IsAscii(c)
    ensures i + 2 <= |input| && ByteLen(input[..i + 2]) == ByteLen(input[..i]) + 2
  {
    ByteLenStep(input, i);
    ByteLenStep(input, i + 1);
  }

  /** The byte offset of the matching closer in `input`, which follows the opener. */
  method FindClosing(kind: DelimiterType, input: string) returns (r: Option<nat>)
    ensures match Closing(kind, input)
            case None => r == None
            case Some(p) => p <= |input| && r == Some(ByteLen(input[..p]))
  {
    hide Closing, Scan, ByteLen, IsCloser, QuoteFromChar, FromOpenChar, StartsTwice, MatchesCharClose;
    var stack := new DelimiterStack.WithRoot(kind);
    var escaped, i, pos := false, 0, 0;
    StartsReading(kind, input);
    while i < |input|
      invariant stack.Valid() && fresh(stack) && fresh(stack.entries)
      invariant ReadSoFar(kind, input, i, stack.Reading(escaped))
      invariant pos == ByteLen(input[..i])
    {
      TurnReads(kind, input, i, stack.Reading(escaped));
      var rest := input[i..];
      var ch := rest[0];
      var isEscape, after := AdvanceEscaped(ch, escaped);
      escaped := after;
      if isEscape {
        i, pos := i + 1, pos + Utf8Len(ch);
        continue;
      }
      var isQuoted := stack.AdvanceQuoteState(ch);
      if isQuoted {
        i, pos := i + 1, pos + Utf8Len(ch);
        continue;
      }
      var isClosed := stack.CheckDoubleBracketClose(rest);
      if isClosed.Some? {
        if isClosed.value { return Some(pos); }
        TwoBytes(input, i, ']');
        i, pos := i + 2, pos + 2;
        continue;
      }
      if IsCloser(ch) {
        var handled := stack.HandleCharClose(ch);
        match handled
        case Ok(isRoot) =>
          if isRoot { return Some(pos); }
          i, pos := i + 1, pos + Utf8Len(ch);
          continue;
        case Err(_) => return None;
      }
      if StartsTwice(rest, '[') {
        stack.PushEntry(DoubleBracket);
        TwoBytes(input, i, '[');
        i, pos := i + 2, pos + 2;
        continue;
      }
      if FromOpenChar(ch).Some? {
        stack.PushEntry(FromOpenChar(ch).value);
      }
      i, pos := i + 1, pos + Utf8Len(ch);
    }
    StopsReading(kind, input, stack.Reading(escaped));
    r := None;
  }

  /** The reported byte offset is that of the closer of the balanced word, and of nothing else. */
  lemma OffsetEndsWord(kind: DelimiterType, input: string, p: nat)
    requires p <= |input| && OpenAtOnce(kind, input) <= MAX_DELIMITER_DEPTH
    ensures ClosesAt(kind, input, p) <==>
              var found := Closing(kind, input);
              found.Some? && found.value <= |input| && ByteLen(input[..found.value]) == ByteLen(input[..p])
  {
    hide Closing, ClosesAt, OpenAtOnce;
    FindsExactlyWordsWithinLimit(kind, input, p);
    if Closing(kind, input).Some? && Closing(kind, input).value <= |input| {
      var q := Closing(kind, input).value;
      if q < p { ByteLenGrows(input, q, p); }
      if p < q { ByteLenGrows(input, p, q); }
    }
  }
}
