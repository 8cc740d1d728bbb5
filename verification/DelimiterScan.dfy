/**
 The delimiter scan of `src/delimiter.rs` as a function of the text still to read
 and the stack of open delimiters.
 */
module DelimiterScan {
  import opened Wrappers

  datatype DelimiterType = Parenthesis | Bracket | Brace | DoubleBracket

  datatype QuoteType = Double | Single

  function QuoteChar(q: QuoteType): char {
    if q == Double then '"' else '\''
  }

  function QuoteFromChar(c: char): Option<QuoteType> {
    if c == '"' then Some(Double) else if c == '\'' then Some(Single) else None
  }

  function FromOpenChar(c: char): Option<DelimiterType> {
    if c == '(' then Some(Parenthesis)
    else if c == '[' then Some(Bracket)
    else if c == '{' then Some(Brace)
    else None
  }

  predicate MatchesCharClose(kind: DelimiterType, c: char) {
    (kind == Parenthesis && c == ')') || (kind == Bracket && c == ']') || (kind == Brace && c == '}')
  }

  predicate IsCloser(c: char) {
    c == ')' || c == ']' || c == '}'
  }

  predicate StartsTwice(s: string, c: char) {
    |s| >= 2 && s[0] == c && s[1] == c
  }

  // A stack is a sequence of open delimiters, innermost last. `None` is a stack
  // without a limit; the source has room for `MAX_DELIMITER_DEPTH` entries.
  const MAX_DELIMITER_DEPTH := 16

  type Stack = seq<DelimiterType>

  function Top(stack: Stack): DelimiterType
    requires stack != []
  {
    stack[|stack| - 1]
  }

  function Pop(stack: Stack): Stack
    requires stack != []
  {
    stack[..|stack| - 1]
  }

  /** Pushing onto a full stack changes nothing. */
  function Push(stack: Stack, kind: DelimiterType, cap: Option<nat>): Stack {
    if cap.Some? && |stack| >= cap.value then stack else stack + [kind]
  }

  function Shift(k: nat, r: Option<nat>): Option<nat> {
    match r
    case None => None
    case Some(p) => Some(k + p)
  }

  /** Open delimiters, the open string quote, and whether a backslash came just before. */
  datatype State = State(stack: Stack, quote: Option<QuoteType>, escaped: bool)

  /** Outside strings, with `stack` open. */
  function Open(stack: Stack): State {
    State(stack, None, false)
  }

  /** One turn of the scan: the closer of the root, a mismatch, or `width` characters read. */
  datatype Step = Found | Refused | Read(width: nat, state: State)

  /** What one turn does at the front of `rest`. */
  function Next(rest: string, st: State, cap: Option<nat>): (r: Step)
    requires rest != [] && st.stack != []
    ensures r.Read? ==> 1 <= r.width <= |rest| && r.state.stack != []
  {
    var c, stack := rest[0], st.stack;
    if st.escaped then Read(1, st.(escaped := false))
    else if c == '\\' then Read(1, st.(escaped := true))
    else if st.quote.Some? then Read(1, if c == QuoteChar(st.quote.value) then st.(quote := None) else st)
    else if QuoteFromChar(c).Some? then Read(1, st.(quote := QuoteFromChar(c)))
    else if Top(stack) == DoubleBracket && StartsTwice(rest, ']') then
      if |stack| == 1 then Found else Read(2, Open(Pop(stack)))
    else if IsCloser(c) then
      if MatchesCharClose(Top(stack), c) then
        if |stack| == 1 then Found else Read(1, Open(Pop(stack)))
      else if Top(stack) == DoubleBracket && c == ']' then Read(1, st)
      else Refused
    else if StartsTwice(rest, '[') then Read(2, Open(Push(stack, DoubleBracket, cap)))
    else if FromOpenChar(c).Some? then Read(1, Open(Push(stack, FromOpenChar(c).value, cap)))
    else Read(1, st)
  }

  /** Characters of `rest` before the closer of the root delimiter, if `rest` closes it. */
  function Scan(rest: string, st: State, cap: Option<nat>): Option<nat>
    requires st.stack != []
    decreases |rest|
  {
    if rest == [] then None
    else
      match Next(rest, st, cap)
      case Found => Some(0)
      case Refused => None
      case Read(n, next) => Shift(n, Scan(rest[n..], next, cap))
  }

  function Max(a: nat, b: nat): nat {
    if a >= b then a else b
  }

  /** The deepest stack the unlimited scan builds before it answers. */
  function Deepest(rest: string, st: State): (r: nat)
    requires st.stack != []
    ensures |st.stack| <= r
    decreases |rest|
  {
    if rest == [] then |st.stack|
    else
      match Next(rest, st, None)
      case Read(n, next) => Max(|st.stack|, Deepest(rest[n..], next))
      case _ => |st.stack|
  }

  lemma LimitUnreachedOnce(rest: string, st: State, cap: nat)
    requires rest != [] && st.stack != []
    requires Next(rest, st, None).Read? ==> |Next(rest, st, None).state.stack| <= cap
    ensures Next(rest, st, Some(cap)) == Next(rest, st, None)
  {}

  /** A limit the unlimited scan never passes changes nothing. */
  lemma {:induction false} LimitUnreached(rest: string, st: State, cap: nat)
    requires st.stack != [] && Deepest(rest, st) <= cap
    ensures Scan(rest, st, Some(cap)) == Scan(rest, st, None)
    decreases |rest|
  {
    hide Next;
    if rest != [] {
      LimitUnreachedOnce(rest, st, cap);
      match Next(rest, st, None)
      case Read(n, next) => LimitUnreached(rest[n..], next, cap);
      case _ =>
    }
  }
}
