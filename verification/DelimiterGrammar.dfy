/**
 The language `find_closing` is meant to recognise, as trees that render to text,
 and the proof that the scan accepts exactly its words.
 */
module DelimiterGrammar {
  import opened Wrappers
  import opened DelimiterScan

  // ---------------------------------------------------------------- trees

  datatype Items = Nil | Cons(head: Item, tail: Items)

  datatype Item =
    | Plain(c: char)
    | Escaped(c: char)
    | Quoted(quote: QuoteType, body: string)
    | Nested(kind: DelimiterType, inner: Items)

  function OpenStr(kind: DelimiterType): string {
    match kind
    case Parenthesis => "("
    case Bracket => "["
    case Brace => "{"
    case DoubleBracket => "[["
  }

  function CloseStr(kind: DelimiterType): string {
    match kind
    case Parenthesis => ")"
    case Bracket => "]"
    case Brace => "}"
    case DoubleBracket => "]]"
  }

  function Render(items: Items): string {
    match items
    case Nil => ""
    case Cons(head, tail) => RenderItem(head) + Render(tail)
  }

  function RenderItem(item: Item): string {
    match item
    case Plain(c) => [c]
    case Escaped(c) => ['\\', c]
    case Quoted(q, body) => [QuoteChar(q)] + body + [QuoteChar(q)]
    case Nested(kind, inner) => OpenStr(kind) + Render(inner) + CloseStr(kind)
  }

  /** A string body: every quote character of its own kind and every backslash is escaped. */
  predicate QuoteBody(body: string, q: QuoteType)
    decreases |body|
  {
    body == []
    || (body[0] == '\\' && |body| >= 2 && QuoteBody(body[2..], q))
    || (body[0] != '\\' && body[0] != QuoteChar(q) && QuoteBody(body[1..], q))
  }

  predicate StartsWith(s: string, c: char) {
    s != [] && s[0] == c
  }

  predicate IsText(c: char) {
    c != '\\' && QuoteFromChar(c).None? && !IsCloser(c) && FromOpenChar(c).None?
  }

  /**
   A balanced word between the delimiters of `kind`. A single `]` is text between
   double brackets unless another `]` follows it, and a bracket whose content starts
   with `[` would read as a double bracket.
   */
  predicate Balanced(kind: DelimiterType, items: Items)
    decreases items
  {
    match items
    case Nil => true
    case Cons(head, tail) =>
      Balanced(kind, tail)
      && match head
         case Plain(c) =>
           IsText(c) || (kind == DoubleBracket && c == ']' && !StartsWith(Render(tail) + CloseStr(kind), ']'))
         case Escaped(_) => true
         case Quoted(q, body) => QuoteBody(body, q)
         case Nested(k, inner) => Balanced(k, inner) && (k == Bracket ==> !StartsWith(Render(inner), '['))
  }

  /** Delimiters open at once inside the word. */
  function Depth(items: Items): nat {
    match items
    case Nil => 0
    case Cons(head, tail) => Max(ItemDepth(head), Depth(tail))
  }

  /** No double bracket is opened anywhere inside the word. */
  predicate NoDouble(items: Items)
    decreases items
  {
    match items
    case Nil => true
    case Cons(head, tail) => NoDoubleItem(head) && NoDouble(tail)
  }

  predicate NoDoubleItem(item: Item)
    decreases item
  {
    item.Nested? ==> item.kind != DoubleBracket && NoDouble(item.inner)
  }

  function ItemDepth(item: Item): nat {
    match item
    case Nested(_, inner) => 1 + Depth(inner)
    case _ => 0
  }

  /** `p` is where the closer of `kind` starts, after a balanced word. */
  ghost predicate ClosesAt(kind: DelimiterType, input: string, p: nat) {
    exists items :: Closes(kind, input, p, items)
  }

  predicate Closes(kind: DelimiterType, input: string, p: nat, items: Items) {
    Balanced(kind, items) && |Render(items)| == p && Render(items) + CloseStr(kind) <= input
  }

  /** The unlimited scan never has a double bracket open. */
  predicate PlainRun(rest: string, st: State): (r: bool)
    requires st.stack != []
    ensures r ==> DoubleBracket !in st.stack
    decreases |rest|
  {
    DoubleBracket !in st.stack
    && (rest != [] ==>
          match Next(rest, st, None)
          case Read(n, next) => PlainRun(rest[n..], next)
          case _ => true)
  }

  // ---------------------------------------------------------------- one scan step per item

  lemma NextOpens(kind: DelimiterType, after: string, stack: Stack, cap: Option<nat>)
    requires stack != []
    requires kind == Bracket ==> !StartsWith(after, '[')
    ensures var rest := OpenStr(kind) + after;
            Next(rest, Open(stack), cap) == Read(|OpenStr(kind)|, Open(Push(stack, kind, cap)))
            && rest[|OpenStr(kind)|..] == after
  {
    if kind != DoubleBracket { assert !StartsTwice(OpenStr(kind) + after, '['); }
  }

  lemma ScanOpens(kind: DelimiterType, after: string, stack: Stack, cap: Option<nat>)
    requires stack != []
    requires kind == Bracket ==> !StartsWith(after, '[')
    ensures Scan(OpenStr(kind) + after, Open(stack), cap)
         == Shift(|OpenStr(kind)|, Scan(after, Open(Push(stack, kind, cap)), cap))
    ensures Deepest(OpenStr(kind) + after, Open(stack)) == Deepest(after, Open(stack + [kind]))
    ensures PlainRun(after, Open(stack + [kind])) ==> PlainRun(OpenStr(kind) + after, Open(stack))
  {
    hide Next, OpenStr;
    NextOpens(kind, after, stack, cap);
    NextOpens(kind, after, stack, None);
  }

  lemma NextCloses(after: string, stack: Stack, cap: Option<nat>)
    requires stack != []
    ensures var close := CloseStr(Top(stack));
            Next(close + after, Open(stack), cap)
            == (if |stack| == 1 then Found else Read(|close|, Open(Pop(stack))))
            && close != [] && (close + after)[|close|..] == after
  {}

  lemma ScanCloses(after: string, stack: Stack, cap: Option<nat>)
    requires stack != []
    ensures var close := CloseStr(Top(stack));
            Scan(close + after, Open(stack), cap)
            == if |stack| == 1 then Some(0) else Shift(|close|, Scan(after, Open(Pop(stack)), cap))
    ensures Deepest(CloseStr(Top(stack)) + after, Open(stack))
         == if |stack| == 1 then 1 else Max(|stack|, Deepest(after, Open(Pop(stack))))
    ensures DoubleBracket !in stack && (|stack| == 1 || PlainRun(after, Open(Pop(stack)))) ==>
              PlainRun(CloseStr(Top(stack)) + after, Open(stack))
  {
    hide Next, CloseStr, Top, Pop;
    NextCloses(after, stack, cap);
    NextCloses(after, stack, None);
  }

  lemma ScanPasses(c: char, after: string, stack: Stack, cap: Option<nat>)
    requires stack != []
    requires IsText(c) || (Top(stack) == DoubleBracket && c == ']' && !StartsWith(after, ']'))
    ensures Scan([c] + after, Open(stack), cap) == Shift(1, Scan(after, Open(stack), cap))
    ensures Deepest([c] + after, Open(stack)) == Deepest(after, Open(stack))
    ensures PlainRun(after, Open(stack)) ==> PlainRun([c] + after, Open(stack))
  {
    assert ([c] + after)[1..] == after;
  }

  lemma ScanEscapes(c: char, after: string, stack: Stack, quote: Option<QuoteType>, cap: Option<nat>)
    requires stack != []
    ensures Scan(['\\', c] + after, State(stack, quote, false), cap)
         == Shift(2, Scan(after, State(stack, quote, false), cap))
    ensures Deepest(['\\', c] + after, State(stack, quote, false)) == Deepest(after, State(stack, quote, false))
    ensures PlainRun(after, State(stack, quote, false)) ==> PlainRun(['\\', c] + after, State(stack, quote, false))
  {
    var rest := ['\\', c] + after;
    assert rest[1..] == [c] + after;
    assert rest[1..][1..] == after;
  }

  lemma ScanInString(c: char, q: QuoteType, after: string, stack: Stack, cap: Option<nat>)
    requires stack != [] && c != '\\'
    ensures Scan([c] + after, State(stack, Some(q), false), cap)
         == Shift(1, Scan(after, State(stack, if c == QuoteChar(q) then None else Some(q), false), cap))
    ensures Deepest([c] + after, State(stack, Some(q), false))
         == Deepest(after, State(stack, if c == QuoteChar(q) then None else Some(q), false))
    ensures PlainRun(after, State(stack, if c == QuoteChar(q) then None else Some(q), false)) ==>
              PlainRun([c] + after, State(stack, Some(q), false))
  {
    assert ([c] + after)[1..] == after;
  }

  lemma {:induction false} ScanString(body: string, q: QuoteType, after: string, stack: Stack, cap: Option<nat>)
    requires stack != [] && QuoteBody(body, q)
    ensures Scan(body + ([QuoteChar(q)] + after), State(stack, Some(q), false), cap)
         == Shift(|body| + 1, Scan(after, Open(stack), cap))
    ensures Deepest(body + ([QuoteChar(q)] + after), State(stack, Some(q), false)) == Deepest(after, Open(stack))
    ensures PlainRun(after, Open(stack)) ==>
              PlainRun(body + ([QuoteChar(q)] + after), State(stack, Some(q), false))
    decreases |body|
  {
    hide Scan, Next, Deepest, PlainRun;
    var close := [QuoteChar(q)] + after;
    if body == [] {
      assert body + close == close;
      ScanInString(QuoteChar(q), q, after, stack, cap);
    } else if body[0] == '\\' {
      assert body + close == ['\\', body[1]] + (body[2..] + close);
      ScanEscapes(body[1], body[2..] + close, stack, Some(q), cap);
      ScanString(body[2..], q, after, stack, cap);
    } else {
      assert body + close == [body[0]] + (body[1..] + close);
      ScanInString(body[0], q, body[1..] + close, stack, cap);
      ScanString(body[1..], q, after, stack, cap);
    }
  }

  lemma ScanOpensString(q: QuoteType, after: string, stack: Stack, cap: Option<nat>)
    requires stack != []
    ensures Scan([QuoteChar(q)] + after, Open(stack), cap)
         == Shift(1, Scan(after, State(stack, Some(q), false), cap))
    ensures Deepest([QuoteChar(q)] + after, Open(stack)) == Deepest(after, State(stack, Some(q), false))
    ensures PlainRun(after, State(stack, Some(q), false)) ==> PlainRun([QuoteChar(q)] + after, Open(stack))
  {
    assert ([QuoteChar(q)] + after)[1..] == after;
  }

  lemma ScanQuoted(q: QuoteType, body: string, after: string, stack: Stack, cap: Option<nat>)
    requires stack != [] && QuoteBody(body, q)
    ensures Scan(RenderItem(Quoted(q, body)) + after, Open(stack), cap)
         == Shift(|body| + 2, Scan(after, Open(stack), cap))
    ensures Deepest(RenderItem(Quoted(q, body)) + after, Open(stack)) == Deepest(after, Open(stack))
    ensures PlainRun(after, Open(stack)) ==> PlainRun(RenderItem(Quoted(q, body)) + after, Open(stack))
  {
    hide Scan, Next, Deepest, PlainRun;
    var close := [QuoteChar(q)] + after;
    assert RenderItem(Quoted(q, body)) + after == [QuoteChar(q)] + (body + close);
    ScanOpensString(q, body + close, stack, cap);
    ScanString(body, q, after, stack, cap);
  }

  // ---------------------------------------------------------------- words are accepted

  lemma BracketContent(inner: string, next: string)
    requires !StartsWith(inner, '[')
    ensures !StartsWith(inner + (CloseStr(Bracket) + next), '[')
  {}

  lemma RenderCons(head: Item, tail: Items, after: string)
    ensures Render(Cons(head, tail)) + after == RenderItem(head) + (Render(tail) + after)
    ensures |Render(Cons(head, tail))| == |RenderItem(head)| + |Render(tail)|
  {}

  /**
   The scan reads a balanced word and stands at what follows it with its stack unchanged,
   having opened as many more delimiters as the word is deep.
   */
  lemma {:induction false} ReadsWord(items: Items, after: string, stack: Stack, cap: Option<nat>)
    requires stack != [] && Balanced(Top(stack), items) && CloseStr(Top(stack)) <= after
    requires cap.Some? ==> |stack| + Depth(items) <= cap.value
    ensures Scan(Render(items) + after, Open(stack), cap)
         == Shift(|Render(items)|, Scan(after, Open(stack), cap))
    ensures Deepest(Render(items) + after, Open(stack)) == Max(|stack| + Depth(items), Deepest(after, Open(stack)))
    ensures NoDouble(items) && PlainRun(after, Open(stack)) ==> PlainRun(Render(items) + after, Open(stack))
    decreases items, 0
  {
    hide Scan, Next, Deepest, PlainRun, RenderItem, ItemDepth, CloseStr;
    match items
    case Nil => assert Render(items) + after == after;
    case Cons(head, tail) =>
      var next := Render(tail) + after;
      RenderCons(head, tail, after);
      ReadsWord(tail, after, stack, cap);
      ReadsItem(head, tail, after, stack, cap);
  }

  lemma SameLookahead(tail: string, close: string, after: string)
    requires close <= after
    ensures StartsWith(tail + after, ']') && tail + close != [] ==> StartsWith(tail + close, ']')
  {}

  lemma CloseIsSome(kind: DelimiterType)
    ensures CloseStr(kind) != []
  {}

  lemma {:induction false} ReadsItem(head: Item, tail: Items, after: string, stack: Stack, cap: Option<nat>)
    requires stack != [] && Balanced(Top(stack), Cons(head, tail)) && CloseStr(Top(stack)) <= after
    requires cap.Some? ==> |stack| + Depth(Cons(head, tail)) <= cap.value
    ensures var next := Render(tail) + after;
            Scan(RenderItem(head) + next, Open(stack), cap)
            == Shift(|RenderItem(head)|, Scan(next, Open(stack), cap))
            && Deepest(RenderItem(head) + next, Open(stack))
            == Max(|stack| + ItemDepth(head), Deepest(next, Open(stack)))
            && (NoDoubleItem(head) && PlainRun(next, Open(stack)) ==>
                  PlainRun(RenderItem(head) + next, Open(stack)))
    decreases head
  {
    hide Scan, Next, Deepest, PlainRun, CloseStr;
    var next := Render(tail) + after;
    match head
    case Plain(c) =>
      CloseIsSome(Top(stack));
      SameLookahead(Render(tail), CloseStr(Top(stack)), after);
      ScanPasses(c, next, stack, cap);
    case Escaped(c) => ScanEscapes(c, next, stack, None, cap);
    case Quoted(q, body) => ScanQuoted(q, body, next, stack, cap);
    case Nested(kind, inner) =>
      ReadsNested(kind, inner, next, stack, cap);
  }

  lemma NestedText(kind: DelimiterType, inner: Items, next: string)
    ensures RenderItem(Nested(kind, inner)) + next == OpenStr(kind) + (Render(inner) + (CloseStr(kind) + next))
  {}

  lemma {:induction false} ReadsNested(kind: DelimiterType, inner: Items, next: string, stack: Stack, cap: Option<nat>)
    requires stack != [] && Balanced(kind, inner) && (kind == Bracket ==> !StartsWith(Render(inner), '['))
    requires cap.Some? ==> |stack| + 1 + Depth(inner) <= cap.value
    ensures var text := RenderItem(Nested(kind, inner));
            Scan(text + next, Open(stack), cap) == Shift(|text|, Scan(next, Open(stack), cap))
            && Deepest(text + next, Open(stack)) == Max(|stack| + 1 + Depth(inner), Deepest(next, Open(stack)))
            && (kind != DoubleBracket && NoDouble(inner) && PlainRun(next, Open(stack)) ==>
                  PlainRun(text + next, Open(stack)))
    decreases inner, 1
  {
    hide Scan, Next, Deepest, PlainRun, Render, RenderItem, Balanced, Depth, OpenStr, CloseStr;
    var closing := CloseStr(kind) + next;
    var inside := Render(inner) + closing;
    if kind == Bracket { BracketContent(Render(inner), next); }
    NestedText(kind, inner, next);
    ScanOpens(kind, inside, stack, cap);
    assert Push(stack, kind, cap) == stack + [kind];
    ReadsWord(inner, closing, stack + [kind], cap);
    ScanCloses(next, stack + [kind], cap);
    assert Pop(stack + [kind]) == stack;
  }

  /** Every word nested at most as deep as the limit is found, whatever follows its closer. */
  lemma WordIsFound(kind: DelimiterType, items: Items, after: string, cap: Option<nat>)
    requires Balanced(kind, items)
    requires cap.Some? ==> 1 + Depth(items) <= cap.value
    ensures Scan(Render(items) + CloseStr(kind) + after, Open([kind]), cap) == Some(|Render(items)|)
    ensures Deepest(Render(items) + CloseStr(kind) + after, Open([kind])) == 1 + Depth(items)
    ensures kind != DoubleBracket && NoDouble(items) ==>
              PlainRun(Render(items) + CloseStr(kind) + after, Open([kind]))
  {
    hide Scan, Next, Deepest, PlainRun;
    var closing := CloseStr(kind) + after;
    assert Render(items) + CloseStr(kind) + after == Render(items) + closing;
    ReadsWord(items, closing, [kind], cap);
    ScanCloses(after, [kind], cap);
  }

  // ---------------------------------------------------------------- accepted texts are words

  /** What the unlimited scan has to read first inside a string, when it succeeds. */
  lemma FirstInString(rest: string, q: QuoteType, stack: Stack)
    requires stack != [] && Scan(rest, State(stack, Some(q), false), None).Some?
    ensures rest != []
    ensures if rest[0] == '\\' then |rest| >= 2 && Scan(rest[2..], State(stack, Some(q), false), None).Some?
            else if rest[0] == QuoteChar(q) then Scan(rest[1..], Open(stack), None).Some?
            else Scan(rest[1..], State(stack, Some(q), false), None).Some?
  {}

  /** A string the scan gets through is a quoted body, and the scan succeeds after it. */
  lemma {:induction false} StringIsBody(rest: string, q: QuoteType, stack: Stack) returns (body: string)
    requires stack != [] && Scan(rest, State(stack, Some(q), false), None).Some?
    ensures QuoteBody(body, q) && body + [QuoteChar(q)] <= rest
    ensures Scan(rest[|body| + 1..], Open(stack), None).Some?
    decreases |rest|
  {
    hide Scan, Next, Deepest, PlainRun;
    FirstInString(rest, q, stack);
    if rest[0] == QuoteChar(q) {
      body := [];
    } else {
      var n := if rest[0] == '\\' then 2 else 1;
      var more := StringIsBody(rest[n..], q, stack);
      body := rest[..n] + more;
      assert body[n..] == more;
      assert rest[n..][|more| + 1..] == rest[|body| + 1..];
    }
  }

  /** One item in front of the word that the rest of the text starts with. */
  lemma Prepend(rest: string, kind: DelimiterType, head: Item, tail: Items)
    requires RenderItem(head) <= rest
    requires Render(tail) + CloseStr(kind) <= rest[|RenderItem(head)|..]
    ensures Render(Cons(head, tail)) + CloseStr(kind) <= rest
  {}

  /** What the unlimited scan has to read first, when it succeeds. */
  lemma FirstStep(rest: string, stack: Stack)
    requires stack != [] && Scan(rest, Open(stack), None).Some?
    ensures rest != []
    ensures var c := rest[0];
            if c == '\\' then |rest| >= 2 && Scan(rest[2..], Open(stack), None).Some?
            else if QuoteFromChar(c).Some? then Scan(rest[1..], State(stack, QuoteFromChar(c), false), None).Some?
            else if CloseStr(Top(stack)) <= rest then true
            else if StartsTwice(rest, '[') then Scan(rest[2..], Open(stack + [DoubleBracket]), None).Some?
            else if FromOpenChar(c).Some? then
              Scan(rest[1..], Open(stack + [FromOpenChar(c).value]), None).Some?
            else
              Scan(rest[1..], Open(stack), None).Some?
              && (IsText(c) || (Top(stack) == DoubleBracket && c == ']' && !StartsTwice(rest, ']')))
  {
    var c := rest[0];
    if c == '\\' {
      assert Scan(rest[1..], State(stack, None, true), None).Some?;
      assert rest[1..][1..] == rest[2..];
    }
  }

  /** A text the unlimited scan accepts starts with a balanced word and its closer. */
  lemma {:induction false} IsWord(rest: string, stack: Stack) returns (items: Items)
    requires stack != [] && Scan(rest, Open(stack), None).Some?
    ensures Balanced(Top(stack), items) && Render(items) + CloseStr(Top(stack)) <= rest
    decreases |rest|
  {
    hide Scan, Next, Deepest, PlainRun;
    FirstStep(rest, stack);
    var kind, c := Top(stack), rest[0];
    if c == '\\' {
      var tail := IsWord(rest[2..], stack);
      items := Cons(Escaped(rest[1]), tail);
      Prepend(rest, kind, items.head, tail);
    } else if QuoteFromChar(c).Some? {
      var q := QuoteFromChar(c).value;
      var body := StringIsBody(rest[1..], q, stack);
      var text := RenderItem(Quoted(q, body));
      assert text <= rest && rest[1..][|body| + 1..] == rest[|text|..];
      var tail := IsWord(rest[|text|..], stack);
      items := Cons(Quoted(q, body), tail);
      Prepend(rest, kind, items.head, tail);
    } else if CloseStr(kind) <= rest {
      items := Nil;
    } else if StartsTwice(rest, '[') {
      items := IsNestedWord(rest, stack, DoubleBracket);
    } else if FromOpenChar(c).Some? {
      items := IsNestedWord(rest, stack, FromOpenChar(c).value);
    } else {
      var tail := IsWord(rest[1..], stack);
      items := Cons(Plain(c), tail);
      Prepend(rest, kind, items.head, tail);
    }
  }

  lemma Regroup(rest: string, open: string, inner: string, close: string)
    requires open <= rest && inner + close <= rest[|open|..]
    ensures var after := rest[|open|..][|inner + close|..];
            rest[|open|..] == inner + (close + after) && rest == open + (inner + (close + after))
  {}

  lemma {:induction false} IsNestedWord(rest: string, stack: Stack, k: DelimiterType) returns (items: Items)
    requires stack != [] && OpenStr(k) <= rest
    requires k == Bracket ==> !StartsTwice(rest, '[')
    requires Scan(rest[|OpenStr(k)|..], Open(stack + [k]), None).Some?
    ensures Balanced(Top(stack), items) && Render(items) + CloseStr(Top(stack)) <= rest
    decreases |rest|, 0
  {
    hide Scan, Next, Deepest, PlainRun;
    var inner := IsWord(rest[|OpenStr(k)|..], stack + [k]);
    var item, close := Nested(k, inner), CloseStr(k);
    var after := rest[|OpenStr(k)|..][|Render(inner) + close|..];
    Regroup(rest, OpenStr(k), Render(inner), close);
    NestedText(k, inner, after);
    var text := RenderItem(item);
    assert rest == text + after;
    ReadsWord(inner, close + after, stack + [k], None);
    ScanCloses(after, stack + [k], None);
    assert Pop(stack + [k]) == stack;
    var tail := IsWord(after, stack);
    items := Cons(item, tail);
    Prepend(rest, Top(stack), item, tail);
  }

  /** Without a limit, the scan finds `p` exactly when a balanced word ends there. */
  lemma FindsExactlyWords(kind: DelimiterType, input: string, p: nat)
    ensures Scan(input, Open([kind]), None) == Some(p) <==> ClosesAt(kind, input, p)
  {
    hide Scan, Next, Deepest, PlainRun;
    if Scan(input, Open([kind]), None) == Some(p) {
      var items := IsWord(input, [kind]);
      var word := Render(items) + CloseStr(kind);
      assert input == word + input[|word|..];
      WordIsFound(kind, items, input[|word|..], None);
      assert Closes(kind, input, p, items);
    }
    if ClosesAt(kind, input, p) {
      var items :| Closes(kind, input, p, items);
      var word := Render(items) + CloseStr(kind);
      assert input == word + input[|word|..];
      WordIsFound(kind, items, input[|word|..], None);
    }
  }

  // ---------------------------------------------------------------- the sixteen-entry limit

  /** `find_closing` on characters: the scan with the source's limit. */
  function Closing(kind: DelimiterType, input: string): Option<nat> {
    Scan(input, Open([kind]), Some(MAX_DELIMITER_DEPTH))
  }

  /** Delimiters open at once, the root included, while the closer is looked for. */
  function OpenAtOnce(kind: DelimiterType, input: string): nat {
    Deepest(input, Open([kind]))
  }

  /** Up to sixteen open delimiters, `find_closing` recognises exactly the balanced words. */
  lemma FindsExactlyWordsWithinLimit(kind: DelimiterType, input: string, p: nat)
    requires OpenAtOnce(kind, input) <= MAX_DELIMITER_DEPTH
    ensures Closing(kind, input) == Some(p) <==> ClosesAt(kind, input, p)
  {
    hide Scan, Deepest;
    LimitUnreached(input, Open([kind]), MAX_DELIMITER_DEPTH);
    FindsExactlyWords(kind, input, p);
  }

  /** On a balanced word, the delimiters open at once are the root and as many as the word is deep. */
  lemma OpenAtOnceIsDepth(kind: DelimiterType, input: string, p: nat, items: Items)
    requires Closes(kind, input, p, items)
    ensures OpenAtOnce(kind, input) == 1 + Depth(items)
  {
    hide Scan, Next, Deepest, PlainRun;
    var word := Render(items) + CloseStr(kind);
    assert input == word + input[|word|..];
    WordIsFound(kind, items, input[|word|..], None);
  }

  /** On an input that starts with a word nested within the limit, exactly that word is found. */
  lemma FindsExactlyShallowWords(kind: DelimiterType, input: string, p: nat, items: Items, q: nat)
    requires Closes(kind, input, p, items) && 1 + Depth(items) <= MAX_DELIMITER_DEPTH
    ensures Closing(kind, input) == Some(q) <==> ClosesAt(kind, input, q)
    ensures ClosesAt(kind, input, q) <==> q == p
  {
    hide Scan, Next, Deepest, PlainRun, OpenAtOnce, Closing;
    OpenAtOnceIsDepth(kind, input, p, items);
    FindsExactlyWordsWithinLimit(kind, input, p);
    FindsExactlyWordsWithinLimit(kind, input, q);
  }

  /** Any input opens at most as many delimiters as it has opening characters, besides the root. */
  lemma {:induction false} OpenersBoundDepth(rest: string, st: State)
    requires st.stack != []
    ensures Deepest(rest, st) <= |st.stack| + Openers(rest)
    decreases |rest|
  {
    hide Next;
    if rest != [] {
      match Next(rest, st, None)
      case Read(n, next) =>
        StepOpensAtMost(rest, st);
        OpenersBoundDepth(rest[n..], next);
      case _ =>
    }
  }

  function Openers(s: string): nat {
    if s == [] then 0 else (if FromOpenChar(s[0]).Some? then 1 else 0) + Openers(s[1..])
  }

  lemma StepOpensAtMost(rest: string, st: State)
    requires rest != [] && st.stack != [] && Next(rest, st, None).Read?
    ensures var step := Next(rest, st, None);
            |step.state.stack| + Openers(rest[step.width..]) <= |st.stack| + Openers(rest)
  {
    if |rest| >= 2 { assert rest[1..][1..] == rest[2..]; }
  }

  /** With fewer than sixteen opening characters in the input, the limit plays no part. */
  lemma FindsExactlyWordsWithFewOpeners(kind: DelimiterType, input: string, p: nat)
    requires Openers(input) < MAX_DELIMITER_DEPTH
    ensures Closing(kind, input) == Some(p) <==> ClosesAt(kind, input, p)
  {
    hide Scan, Next, Deepest, PlainRun, Closing;
    OpenersBoundDepth(input, Open([kind]));
    FindsExactlyWordsWithinLimit(kind, input, p);
  }

  /** A closer ends at most one balanced word, so the answer is the only one possible. */
  lemma WordIsUnique(kind: DelimiterType, input: string, p: nat, q: nat)
    requires ClosesAt(kind, input, p) && ClosesAt(kind, input, q)
    ensures p == q
  {
    hide Scan, Next, Deepest, PlainRun;
    FindsExactlyWords(kind, input, p);
    FindsExactlyWords(kind, input, q);
  }

  /** A turn looks at one character, or two; it cannot tell texts apart that agree there. */
  lemma NextLooksAhead(rest: string, other: string, st: State, cap: Option<nat>)
    requires rest != [] && other != [] && rest[0] == other[0] && st.stack != []
    requires (|rest| >= 2 && |other| >= 2 && rest[1] == other[1])
          || (Top(st.stack) != DoubleBracket && MatchesCharClose(Top(st.stack), rest[0]))
    ensures Next(other, st, cap) == Next(rest, st, cap)
  {}

  /** The root at the bottom of the stack stays there. */
  lemma RootStays(rest: string, st: State, cap: Option<nat>)
    requires rest != [] && st.stack != [] && Next(rest, st, cap).Read?
    ensures Next(rest, st, cap).state.stack[0] == st.stack[0]
  {}

  lemma FoundIsCloser(rest: string, st: State, cap: Option<nat>)
    requires rest != [] && st.stack != [] && Next(rest, st, cap).Found?
    ensures Top(st.stack) == st.stack[0] && CloseStr(st.stack[0]) <= rest
    ensures Top(st.stack) != DoubleBracket ==> MatchesCharClose(Top(st.stack), rest[0])
  {}

  /** The answer depends only on the text up to the end of the closer, limit or not. */
  lemma {:induction false} NothingReadAfterCloser(rest: string, other: string, st: State, cap: Option<nat>)
    requires st.stack != [] && Scan(rest, st, cap).Some?
    requires var end := Scan(rest, st, cap).value + |CloseStr(st.stack[0])|;
             end <= |rest| && end <= |other| && rest[..end] == other[..end]
    ensures Scan(other, st, cap) == Scan(rest, st, cap)
    decreases |rest|
  {
    hide Next;
    var end := Scan(rest, st, cap).value + |CloseStr(st.stack[0])|;
    assert rest[..end][0] == other[..end][0];
    assert end >= 2 ==> rest[..end][1] == other[..end][1];
    match Next(rest, st, cap)
    case Found =>
      FoundIsCloser(rest, st, cap);
      NextLooksAhead(rest, other, st, cap);
    case Read(n, next) =>
      RootStays(rest, st, cap);
      NextLooksAhead(rest, other, st, cap);
      assert rest[n..][..end - n] == rest[..end][n..] == other[..end][n..] == other[n..][..end - n];
      NothingReadAfterCloser(rest[n..], other[n..], next, cap);
  }

  /** Whatever follows the closer that `find_closing` reports may be replaced. */
  lemma AnswerIgnoresWhatFollows(kind: DelimiterType, input: string, after: string)
    requires Closing(kind, input).Some?
    ensures var p := Closing(kind, input).value;
            p + |CloseStr(kind)| <= |input|
            && Closing(kind, input[..p + |CloseStr(kind)|] + after) == Some(p)
  {
    hide Scan, Next, Deepest, PlainRun;
    AnswerIsBeforeCloser(input, Open([kind]), Some(MAX_DELIMITER_DEPTH));
    var end := Closing(kind, input).value + |CloseStr(kind)|;
    NothingReadAfterCloser(input, input[..end] + after, Open([kind]), Some(MAX_DELIMITER_DEPTH));
  }

  lemma {:induction false} AnswerIsBeforeCloser(rest: string, st: State, cap: Option<nat>)
    requires st.stack != [] && Scan(rest, st, cap).Some?
    ensures var p := Scan(rest, st, cap).value;
            p <= |rest| && CloseStr(st.stack[0]) <= rest[p..]
    decreases |rest|
  {
    hide Next;
    match Next(rest, st, cap)
    case Found => FoundIsCloser(rest, st, cap);
    case Read(n, next) =>
      RootStays(rest, st, cap);
      AnswerIsBeforeCloser(rest[n..], next, cap);
  }

  // ---------------------------------------------------------------- past the limit

  /** Two scans of one text that differ only in the delimiters they have open. */
  predicate Apart(full: State, short: State) {
    full.quote == short.quote && full.escaped == short.escaped && short.stack != []
    && |short.stack| < |full.stack| && DoubleBracket !in short.stack && DoubleBracket !in full.stack
  }

  lemma ApartKeeps(rest: string, full: State, short: State, cap: nat)
    requires rest != [] && Apart(full, short)
    requires Next(rest, full, None).Read? && DoubleBracket !in Next(rest, full, None).state.stack
    requires Next(rest, short, Some(cap)).Read?
    ensures Next(rest, short, Some(cap)).width == Next(rest, full, None).width
    ensures Apart(Next(rest, full, None).state, Next(rest, short, Some(cap)).state)
  {}

  /** Nothing is reported, or an earlier place. */
  predicate Misses(answer: Option<nat>, closer: nat) {
    answer.None? || answer.value < closer
  }

  /** A scan that has lost an entry misses the closer that the unlimited scan reports. */
  lemma {:induction false} LostEntryIsFatal(rest: string, full: State, short: State, cap: nat)
    requires Apart(full, short) && PlainRun(rest, full) && Scan(rest, full, None).Some?
    ensures Misses(Scan(rest, short, Some(cap)), Scan(rest, full, None).value)
    decreases |rest|
  {
    match Next(rest, full, None)
    case Read(n, next) =>
      if Next(rest, short, Some(cap)).Read? {
        ApartKeeps(rest, full, short, cap);
        LostEntryIsFatal(rest[n..], next, Next(rest, short, Some(cap)).state, cap);
      }
    case Found =>
  }

  lemma StaysWithin(rest: string, st: State, cap: nat)
    requires rest != [] && st.stack != [] && |st.stack| <= cap && DoubleBracket !in st.stack
    requires Next(rest, st, None).Read? && DoubleBracket !in Next(rest, st, None).state.stack
    ensures var full, short := Next(rest, st, None), Next(rest, st, Some(cap));
            short.Read? && short.width == full.width
            && if |full.state.stack| <= cap then short == full else Apart(full.state, short.state)
  {}

  /** Passing the limit loses the closer. */
  lemma {:induction false} PassingLimitIsFatal(rest: string, st: State, cap: nat)
    requires st.stack != [] && |st.stack| <= cap && PlainRun(rest, st)
    requires Scan(rest, st, None).Some? && Deepest(rest, st) > cap
    ensures Misses(Scan(rest, st, Some(cap)), Scan(rest, st, None).value)
    decreases |rest|
  {
    hide Next;
    match Next(rest, st, None)
    case Read(n, next) =>
      StaysWithin(rest, st, cap);
      if |next.stack| <= cap {
        PassingLimitIsFatal(rest[n..], next, cap);
      } else {
        LostEntryIsFatal(rest[n..], next, Next(rest, st, Some(cap)).state, cap);
      }
    case Found =>
  }

  /**
   Exactly how far the limit reaches. The closer of a balanced word without double
   brackets is reported if and only if the word is nested within the limit, root included.
   Past the limit nothing is reported, or a place inside the word.
   */
  lemma WordIsFoundIffWithinLimit(kind: DelimiterType, input: string, p: nat, items: Items)
    requires kind != DoubleBracket && NoDouble(items) && Closes(kind, input, p, items)
    ensures Closing(kind, input) == Some(p) <==> 1 + Depth(items) <= MAX_DELIMITER_DEPTH
    ensures 1 + Depth(items) > MAX_DELIMITER_DEPTH ==> Misses(Closing(kind, input), p)
  {
    hide Scan, Deepest, PlainRun;
    var word := Render(items) + CloseStr(kind);
    assert input == word + input[|word|..];
    WordIsFound(kind, items, input[|word|..], None);
    if OpenAtOnce(kind, input) <= MAX_DELIMITER_DEPTH {
      LimitUnreached(input, Open([kind]), MAX_DELIMITER_DEPTH);
    } else {
      PassingLimitIsFatal(input, Open([kind]), MAX_DELIMITER_DEPTH);
    }
  }

  /** `n` pairs of parentheses, one inside the other. */
  function Nest(n: nat): Items {
    if n == 0 then Nil else Cons(Nested(Parenthesis, Nest(n - 1)), Nil)
  }

  lemma NestText(n: nat)
    ensures Render(Nest(n)) == if n == 0 then "" else "(" + Render(Nest(n - 1)) + ")"
  {}

  lemma {:induction false} NestIsBalanced(n: nat)
    ensures Balanced(Parenthesis, Nest(n)) && Depth(Nest(n)) == n && NoDouble(Nest(n))
    ensures |Render(Nest(n))| == 2 * n
  {
    hide Render;
    NestText(n);
    if n > 0 { NestIsBalanced(n - 1); }
  }

  /** Sixteen nested pairs are already too many: one more entry is open for the root. */
  lemma NestIsFoundIffShallow(n: nat)
    ensures Closing(Parenthesis, Render(Nest(n)) + ")") == Some(2 * n) <==> n < MAX_DELIMITER_DEPTH
  {
    hide Scan, Next, Deepest, PlainRun;
    var input := Render(Nest(n)) + ")";
    NestIsBalanced(n);
    assert Closes(Parenthesis, input, 2 * n, Nest(n));
    WordIsFoundIffWithinLimit(Parenthesis, input, 2 * n, Nest(n));
  }

  // ---------------------------------------------------------------- answers for what is no word

  function Repeat(c: char, n: nat): (s: string)
    ensures |s| == n
  {
    if n == 0 then [] else [c] + Repeat(c, n - 1)
  }

  /** `k` parentheses open. */
  function Parens(k: nat): (s: Stack)
    ensures |s| == k && forall kind <- s :: kind == Parenthesis
  {
    seq(k, _ => Parenthesis)
  }

  function Room(k: nat, n: nat, cap: Option<nat>): nat {
    if cap.Some? && k + n > cap.value then cap.value else k + n
  }

  lemma ParensPushPop(k: nat, cap: Option<nat>)
    requires 0 < k && (cap.Some? ==> k <= cap.value)
    ensures Push(Parens(k), Parenthesis, cap) == Parens(Room(k, 1, cap))
    ensures Top(Parens(k)) == Parenthesis && Pop(Parens(k)) == Parens(k - 1)
  {}

  lemma {:induction false} ReadsOpeners(n: nat, after: string, k: nat, cap: Option<nat>)
    requires 0 < k && (cap.Some? ==> k <= cap.value)
    ensures Scan(Repeat('(', n) + after, Open(Parens(k)), cap)
         == Shift(n, Scan(after, Open(Parens(Room(k, n, cap))), cap))
  {
    hide Scan, Next, Deepest, PlainRun, Parens;
    if n == 0 {
      assert Repeat('(', n) + after == after;
    } else {
      var rest := Repeat('(', n - 1) + after;
      assert Repeat('(', n) + after == "(" + rest;
      ScanOpens(Parenthesis, rest, Parens(k), cap);
      ParensPushPop(k, cap);
      ReadsOpeners(n - 1, after, Room(k, 1, cap), cap);
    }
  }

  lemma ParenText(n: nat)
    requires n > 0
    ensures CloseStr(Parenthesis) + Repeat(')', n - 1) == Repeat(')', n) && |CloseStr(Parenthesis)| == 1
  {}

  lemma NothingLeft(stack: Stack, cap: Option<nat>)
    requires stack != []
    ensures Scan(Repeat(')', 0), Open(stack), cap) == None
  {}

  lemma {:induction false} ReadsClosers(n: nat, k: nat, cap: Option<nat>)
    requires 0 < k
    ensures Scan(Repeat(')', n), Open(Parens(k)), cap) == if n < k then None else Some(k - 1)
  {
    hide Scan, Next, Deepest, PlainRun, Parens, CloseStr, Top, Pop;
    if n == 0 {
      NothingLeft(Parens(k), cap);
    } else {
      ParensPushPop(k, None);
      ParenText(n);
      ScanCloses(Repeat(')', n - 1), Parens(k), cap);
      if k > 1 { ReadsClosers(n - 1, k - 1, cap); }
    }
  }

  /** One closer short of a word: the limited scan answers once sixteen or more are opened. */
  lemma NonWordIsAnswered(n: nat, p: nat)
    ensures var input := Repeat('(', n) + Repeat(')', n);
            && !ClosesAt(Parenthesis, input, p)
            && Closing(Parenthesis, input)
               == if n < MAX_DELIMITER_DEPTH then None else Some(n + MAX_DELIMITER_DEPTH - 1)
  {
    hide Scan, Next, Deepest, PlainRun;
    assert [Parenthesis] == Parens(1);
    FindsExactlyWords(Parenthesis, Repeat('(', n) + Repeat(')', n), p);
    ReadsOpeners(n, Repeat(')', n), 1, None);
    ReadsClosers(n, 1 + n, None);
    ReadsOpeners(n, Repeat(')', n), 1, Some(MAX_DELIMITER_DEPTH));
    ReadsClosers(n, Room(1, n, Some(MAX_DELIMITER_DEPTH)), Some(MAX_DELIMITER_DEPTH));
  }

  // ---------------------------------------------------------------- why `[[` is set apart

  /** `n` brackets, one inside the other, an `a` after each opener and each closer. */
  function Spaced(n: nat): Items {
    if n == 0 then Nil
    else Cons(Nested(Bracket, Cons(Plain('a'), Spaced(n - 1))), Cons(Plain('a'), Nil))
  }

  lemma {:induction false} SpacedText(n: nat, after: string)
    requires n > 0
    ensures Render(Spaced(n)) + after == "[" + ("a" + (Render(Spaced(n - 1)) + ("]" + ("a" + after))))
    ensures |Render(Spaced(n))| == |Render(Spaced(n - 1))| + 4
  {
    assert Render(Cons(Plain('a'), Nil)) == "a";
    assert Render(Cons(Plain('a'), Spaced(n - 1))) == "a" + Render(Spaced(n - 1));
  }

  lemma {:induction false} SpacedIsBalanced(n: nat, kind: DelimiterType)
    ensures Balanced(kind, Spaced(n)) && Depth(Spaced(n)) == n
  {
    if n > 0 { SpacedIsBalanced(n - 1, Bracket); }
  }

  /** Double brackets around `k` brackets. */
  function Brackets(k: nat): (r: Stack)
    ensures |r| == k + 1 && Top(r) == if k == 0 then DoubleBracket else Bracket
  {
    if k == 0 then [DoubleBracket] else Brackets(k - 1) + [Bracket]
  }

  lemma BracketsPop(k: nat)
    requires k > 0
    ensures Pop(Brackets(k)) == Brackets(k - 1)
  {}

  function Fewer(k: nat): nat {
    if k == 0 then 0 else k - 1
  }

  /** A closing bracket pops a bracket, or is text between the double brackets. */
  lemma ReadsSpacedClose(k: nat, after: string, cap: Option<nat>)
    ensures Scan("]" + ("a" + after), Open(Brackets(k)), cap) == Shift(2, Scan(after, Open(Brackets(Fewer(k))), cap))
  {
    hide Scan, Next, Deepest, PlainRun;
    if k == 0 {
      ScanPasses(']', "a" + after, Brackets(k), cap);
    } else {
      BracketsPop(k);
      ScanCloses("a" + after, Brackets(k), cap);
    }
    ScanPasses('a', after, Brackets(Fewer(k)), cap);
  }

  /** An opening bracket is pushed while there is room. */
  lemma ReadsSpacedOpen(k: nat, inside: string, cap: nat)
    requires k < cap
    ensures Scan("[" + ("a" + inside), Open(Brackets(k)), Some(cap))
         == Shift(2, Scan(inside, Open(Brackets(if k + 1 < cap then k + 1 else k)), Some(cap)))
  {
    hide Scan, Next, Deepest, PlainRun;
    var deeper := if k + 1 < cap then k + 1 else k;
    ScanOpens(Bracket, "a" + inside, Brackets(k), Some(cap));
    assert Push(Brackets(k), Bracket, Some(cap)) == Brackets(deeper);
    ScanPasses('a', inside, Brackets(deeper), Some(cap));
  }

  /** One bracket more than there is room for costs one entry, or none at the root. */
  lemma {:induction false} SpacedPastLimit(n: nat, k: nat, after: string)
    requires n > 0
    ensures Scan(Render(Spaced(n)) + after, Open(Brackets(k)), Some(n + k))
         == Shift(|Render(Spaced(n))|, Scan(after, Open(Brackets(Fewer(k))), Some(n + k)))
  {
    hide Scan, Next, Deepest, PlainRun, Render, Spaced, Brackets;
    var close := "]" + ("a" + after);
    var inside := Render(Spaced(n - 1)) + close;
    SpacedText(n, after);
    ReadsSpacedOpen(k, inside, n + k);
    if n == 1 {
      NoneSpaced(close);
    } else {
      SpacedPastLimit(n - 1, k + 1, close);
    }
    ReadsSpacedClose(k, after, Some(n + k));
  }

  lemma NoneSpaced(after: string)
    ensures Render(Spaced(0)) + after == after && |Render(Spaced(0))| == 0
  {}

  /** `n` spaced brackets between double brackets are found with room for `n` entries. */
  lemma SpacedIsFound(n: nat)
    requires n > 0
    ensures var input := Render(Spaced(n)) + "]]";
            Closes(DoubleBracket, input, |Render(Spaced(n))|, Spaced(n))
            && Depth(Spaced(n)) == n
            && Scan(input, Open([DoubleBracket]), Some(n)) == Some(|Render(Spaced(n))|)
  {
    hide Scan, Next, Deepest, PlainRun, Render, Spaced;
    SpacedIsBalanced(n, DoubleBracket);
    SpacedPastLimit(n, 0, "]]");
    assert "]]" + "" == "]]";
    ScanCloses("", Brackets(0), Some(n));
  }

  /**
   Between double brackets the limit can be passed unnoticed: the closer of a dropped
   bracket is read as text. So staying within the limit is sufficient there, not necessary.
   */
  lemma LimitCanPassUnnoticed()
    ensures exists input, p: nat, items ::
              && Closes(DoubleBracket, input, p, items)
              && 1 + Depth(items) > MAX_DELIMITER_DEPTH
              && Closing(DoubleBracket, input) == Some(p)
  {
    hide Scan, Deepest, Spaced, Depth, Render, Closes;
    SpacedIsFound(MAX_DELIMITER_DEPTH);
    var items := Spaced(MAX_DELIMITER_DEPTH);
    assert Closing(DoubleBracket, Render(items) + "]]") == Some(|Render(items)|);
  }
}
