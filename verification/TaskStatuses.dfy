/**
 `TaskStatusMap` of `src/task.rs`: three lookup tables kept in step by overriding
 inserts, proved against the sequence of statuses accepted so far.
 */
module TaskStatuses {
  import opened Wrappers
  import opened Text
  import opened StatusNames
  import DelimiterScan

  datatype Kind = Todo | InProgress | OnHold | Done | Cancelled | NonTask

  datatype Status = Status(symbol: char, name: string, kind: Kind)

  datatype StatusError = ProhibitedStatusSymbol(symbol: char)

  /** The three tables. A kind without a bucket has no statuses. */
  datatype Tables = Tables(
    symbols: map<char, Status>,
    names: map<string, Status>,
    kinds: map<Kind, seq<Status>>)

  const DEFAULTS: seq<Status> := [
    Status(' ', "Todo", Todo),
    Status('x', "Done", Done),
    Status('X', "Done", Done),
    Status('/', "In Progress", InProgress),
    Status('-', "Cancelled", Cancelled),
    Status('!', "On Hold", OnHold)
  ]

  predicate IsDelimiter(c: char) {
    c == '(' || c == ')' || c == '[' || c == ']' || c == '{' || c == '}'
  }

  /** The prohibited symbols are the characters that open or close a delimiter. */
  lemma ProhibitedAreDelimiters(c: char)
    ensures IsDelimiter(c) <==> DelimiterScan.FromOpenChar(c).Some? || DelimiterScan.IsCloser(c)
  {}

  // ---------------------------------------------------------------- histories

  // A history is the statuses written so far, oldest first.
  type History = seq<Status>

  /** The last status written for `symbol`, or -1. */
  function LastOf(h: History, symbol: char): (i: int)
    ensures -1 <= i < |h|
    ensures i >= 0 ==> h[i].symbol == symbol
    ensures forall j :: i < j < |h| ==> h[j].symbol != symbol
  {
    if h == [] then -1
    else if h[|h| - 1].symbol == symbol then |h| - 1
    else LastOf(h[..|h| - 1], symbol)
  }

  /** The last status written under the key `key`, or -1. */
  function LastNamed(h: History, lower: Lowering, key: string): (i: int)
    ensures -1 <= i < |h|
    ensures i >= 0 ==> Normalize(lower, h[i].name) == key
    ensures forall j :: i < j < |h| ==> Normalize(lower, h[j].name) != key
  {
    if h == [] then -1
    else if Normalize(lower, h[|h| - 1].name) == key then |h| - 1
    else LastNamed(h[..|h| - 1], lower, key)
  }

  /** A status is live until its symbol is written again. */
  predicate Live(h: History, i: int) {
    0 <= i < |h| && forall j :: i < j < |h| ==> h[j].symbol != h[i].symbol
  }

  /** The live statuses of `kind` from position `i` on, in the order they were written. */
  function LiveFrom(h: History, kind: Kind, i: nat): seq<Status>
    requires i <= |h|
    decreases |h| - i
  {
    if i == |h| then []
    else (if Live(h, i) && h[i].kind == kind then [h[i]] else []) + LiveFrom(h, kind, i + 1)
  }

  function BySymbol(h: History, symbol: char): Option<Status> {
    if LastOf(h, symbol) < 0 then None else Some(h[LastOf(h, symbol)])
  }

  /** The last status written under the name, if it is still live. */
  function ByName(h: History, lower: Lowering, name: string): Option<Status> {
    Holder(h, lower, Normalize(lower, name))
  }

  function Holder(h: History, lower: Lowering, key: string): Option<Status> {
    var i := LastNamed(h, lower, key);
    if Live(h, i) then Some(h[i]) else None
  }

  function ByKind(h: History, kind: Kind): seq<Status> {
    LiveFrom(h, kind, 0)
  }

  // ---------------------------------------------------------------- the tables' operations

  function Lookup<K, V>(m: map<K, V>, k: K): Option<V> {
    if k in m then Some(m[k]) else None
  }

  function Bucket(t: Tables, kind: Kind): seq<Status> {
    if kind in t.kinds then t.kinds[kind] else []
  }

  /** `Vec::retain`: the statuses with another symbol. */
  function Retained(bucket: seq<Status>, symbol: char): seq<Status> {
    if bucket == [] then []
    else (if bucket[0].symbol != symbol then [bucket[0]] else []) + Retained(bucket[1..], symbol)
  }

  function Purged(t: Tables, lower: Lowering, status: Status): Tables {
    if status.symbol !in t.symbols then t
    else
      var previous := t.symbols[status.symbol];
      var kinds :=
        if previous.kind in t.kinds then
          t.kinds[previous.kind := Retained(t.kinds[previous.kind], previous.symbol)]
        else t.kinds;
      var key := Normalize(lower, previous.name);
      var names := if key in t.names && t.names[key].symbol == previous.symbol then t.names - {key} else t.names;
      t.(kinds := kinds, names := names)
  }

  function Indexed(t: Tables, lower: Lowering, status: Status): Tables {
    Tables(
      t.symbols[status.symbol := status],
      t.names[Normalize(lower, status.name) := status],
      t.kinds[status.kind := Bucket(t, status.kind) + [status]])
  }

  function Inserted(t: Tables, lower: Lowering, status: Status): Tables {
    if IsDelimiter(status.symbol) then t else Indexed(Purged(t, lower, status), lower, status)
  }

  function Written(h: History, status: Status): History {
    if IsDelimiter(status.symbol) then h else h + [status]
  }

  /** Every lookup answers from the history. */
  ghost predicate Agrees(t: Tables, lower: Lowering, h: History) {
    (forall c :: Lookup(t.symbols, c) == BySymbol(h, c))
    && (forall key :: Lookup(t.names, key) == Holder(h, lower, key))
    && (forall k :: Bucket(t, k) == ByKind(h, k))
  }

  // ---------------------------------------------------------------- one insert keeps the tables in step

  lemma LiveAfter(h: History, s: Status, i: int)
    requires 0 <= i < |h|
    ensures Live(h + [s], i) <==> Live(h, i) && h[i].symbol != s.symbol
  {
    var n := h + [s];
    assert n[|h|] == s;
    assert forall j :: 0 <= j < |h| ==> n[j] == h[j];
  }

  lemma {:induction false} RetainedConcat(a: seq<Status>, b: seq<Status>, symbol: char)
    ensures Retained(a + b, symbol) == Retained(a, symbol) + Retained(b, symbol)
  {
    if a == [] {
      assert a + b == b;
    } else {
      assert (a + b)[1..] == a[1..] + b;
      RetainedConcat(a[1..], b, symbol);
    }
  }

  lemma {:induction false} LiveFromStep(h: History, s: Status, kind: Kind, i: nat)
    requires i <= |h|
    ensures LiveFrom(h + [s], kind, i)
         == Retained(LiveFrom(h, kind, i), s.symbol) + if s.kind == kind then [s] else []
    decreases |h| - i
  {
    var n := h + [s];
    if i == |h| {
      assert n[i] == s && Live(n, i);
      assert LiveFrom(n, kind, i + 1) == [];
    } else {
      hide Live;
      var front := if Live(h, i) && h[i].kind == kind then [h[i]] else [];
      assert n[i] == h[i];
      LiveAfter(h, s, i);
      LiveFromStep(h, s, kind, i + 1);
      RetainedConcat(front, LiveFrom(h, kind, i + 1), s.symbol);
    }
  }

  /** A bucket without live statuses of a symbol is left as it is. */
  lemma {:induction false} RetainedElsewhere(h: History, symbol: char, kind: Kind, i: nat)
    requires i <= |h|
    requires BySymbol(h, symbol).Some? ==> BySymbol(h, symbol).value.kind != kind
    ensures Retained(LiveFrom(h, kind, i), symbol) == LiveFrom(h, kind, i)
    decreases |h| - i
  {
    if i < |h| {
      var front := if Live(h, i) && h[i].kind == kind then [h[i]] else [];
      RetainedElsewhere(h, symbol, kind, i + 1);
      RetainedConcat(front, LiveFrom(h, kind, i + 1), symbol);
      assert front != [] ==> LastOf(h, h[i].symbol) == i;
    }
  }

  lemma KindsStep(t: Tables, lower: Lowering, h: History, s: Status, k: Kind)
    requires Agrees(t, lower, h)
    ensures Bucket(Indexed(Purged(t, lower, s), lower, s), k) == ByKind(h + [s], k)
  {
    hide LiveFrom, Normalize;
    LiveFromStep(h, s, k, 0);
    var p := Purged(t, lower, s);
    assert Lookup(t.symbols, s.symbol) == BySymbol(h, s.symbol);
    assert Bucket(t, k) == ByKind(h, k);
    assert Bucket(p, k) == Retained(Bucket(t, k), s.symbol) by {
      if BySymbol(h, s.symbol).None? || BySymbol(h, s.symbol).value.kind != k {
        RetainedElsewhere(h, s.symbol, k, 0);
      } else if k !in t.kinds {
        assert Retained([], s.symbol) == [];
      }
    }
  }

  lemma SymbolsStep(t: Tables, lower: Lowering, h: History, s: Status, c: char)
    requires Agrees(t, lower, h)
    ensures Lookup(Indexed(Purged(t, lower, s), lower, s).symbols, c) == BySymbol(h + [s], c)
  {
    assert (h + [s])[..|h|] == h;
    assert Lookup(t.symbols, c) == BySymbol(h, c);
  }

  lemma NamesStep(t: Tables, lower: Lowering, h: History, s: Status, key: string)
    requires Agrees(t, lower, h)
    ensures Lookup(Indexed(Purged(t, lower, s), lower, s).names, key) == Holder(h + [s], lower, key)
  {
    hide Normalize;
    var n := h + [s];
    assert n[..|h|] == h;
    if Normalize(lower, s.name) == key {
      assert LastNamed(n, lower, key) == |h| && Live(n, |h|);
    } else {
      var i := LastNamed(h, lower, key);
      assert LastNamed(n, lower, key) == i;
      assert Lookup(t.names, key) == Holder(h, lower, key);
      assert Lookup(t.symbols, s.symbol) == BySymbol(h, s.symbol);
      if i >= 0 {
        LiveAfter(h, s, i);
        if Live(h, i) && h[i].symbol == s.symbol { assert LastOf(h, s.symbol) == i; }
      }
    }
  }

  /** An insert that is accepted extends the history; the three lookups stay in step. */
  lemma InsertedAgrees(t: Tables, lower: Lowering, h: History, s: Status)
    requires Agrees(t, lower, h)
    ensures Agrees(Inserted(t, lower, s), lower, Written(h, s))
  {
    hide Purged, Indexed, BySymbol, ByKind, Holder, Bucket, Lookup;
    if !IsDelimiter(s.symbol) {
      forall c ensures Lookup(Inserted(t, lower, s).symbols, c) == BySymbol(h + [s], c) {
        SymbolsStep(t, lower, h, s, c);
      }
      forall key ensures Lookup(Inserted(t, lower, s).names, key) == Holder(h + [s], lower, key) {
        NamesStep(t, lower, h, s, key);
      }
      forall k ensures Bucket(Inserted(t, lower, s), k) == ByKind(h + [s], k) {
        KindsStep(t, lower, h, s, k);
      }
    }
  }

  // ---------------------------------------------------------------- whole runs

  function Run(t: Tables, lower: Lowering, inserts: seq<Status>): Tables
    decreases |inserts|
  {
    if inserts == [] then t else Run(Inserted(t, lower, inserts[0]), lower, inserts[1..])
  }

  /** The writes of a run that were accepted, after those of `h`. */
  function Accepted(h: History, inserts: seq<Status>): History
    decreases |inserts|
  {
    if inserts == [] then h else Accepted(Written(h, inserts[0]), inserts[1..])
  }

  /** After any run of inserts, every lookup answers from the accepted writes. */
  lemma {:induction false} RunAgrees(t: Tables, lower: Lowering, h: History, inserts: seq<Status>)
    requires Agrees(t, lower, h)
    ensures Agrees(Run(t, lower, inserts), lower, Accepted(h, inserts))
    decreases |inserts|
  {
    hide Agrees, Inserted, Written;
    if inserts != [] {
      InsertedAgrees(t, lower, h, inserts[0]);
      RunAgrees(Inserted(t, lower, inserts[0]), lower, Written(h, inserts[0]), inserts[1..]);
    }
  }

  // ---------------------------------------------------------------- what the lookups say together

  /** A bucket holds each live status of its kind once, in the order of their last writes. */
  lemma {:induction false} BucketOrder(h: History, kind: Kind, i: nat) returns (at: seq<nat>)
    requires i <= |h|
    ensures |at| == |LiveFrom(h, kind, i)|
    ensures forall j :: 0 <= j < |at| ==>
              i <= at[j] && Live(h, at[j]) && h[at[j]].kind == kind && LiveFrom(h, kind, i)[j] == h[at[j]]
    ensures forall j, k :: 0 <= j < k < |at| ==> at[j] < at[k]
    ensures forall p :: i <= p < |h| && Live(h, p) && h[p].kind == kind ==> p in at
    decreases |h| - i
  {
    hide Live;
    if i == |h| {
      at := [];
    } else {
      var rest := BucketOrder(h, kind, i + 1);
      at := (if Live(h, i) && h[i].kind == kind then [i] else []) + rest;
    }
  }

  /** A status is in its kind's bucket exactly when its symbol resolves to it. */
  lemma SymbolAndKindAgree(h: History, s: Status)
    ensures BySymbol(h, s.symbol) == Some(s) <==> s in ByKind(h, s.kind)
  {
    var at := BucketOrder(h, s.kind, 0);
    if BySymbol(h, s.symbol) == Some(s) {
      var p := LastOf(h, s.symbol);
      assert Live(h, p) && p in at;
      var j :| 0 <= j < |at| && at[j] == p;
      assert ByKind(h, s.kind)[j] == s;
    }
    if s in ByKind(h, s.kind) {
      var j :| 0 <= j < |at| && ByKind(h, s.kind)[j] == s;
      assert LastOf(h, s.symbol) == at[j];
    }
  }

  /** What a name finds is live: its symbol and its kind find it too. */
  lemma NameFindsLive(h: History, lower: Lowering, name: string)
    requires ByName(h, lower, name).Some?
    ensures var s := ByName(h, lower, name).value;
            Normalize(lower, s.name) == Normalize(lower, name)
            && BySymbol(h, s.symbol) == Some(s) && s in ByKind(h, s.kind)
  {
    hide Normalize;
    var s := ByName(h, lower, name).value;
    assert LastOf(h, s.symbol) == LastNamed(h, lower, Normalize(lower, name));
    SymbolAndKindAgree(h, s);
  }

  // ---------------------------------------------------------------- when a name is lost

  /** Every live status can be found under its own name, or another live one of that name can. */
  ghost predicate NamesComplete(h: History, lower: Lowering) {
    forall i :: Live(h, i) ==> ByName(h, lower, h[i].name).Some?
  }

  /** Writing `s` takes a name from the table that another live status still has. */
  ghost predicate TakesSharedName(h: History, lower: Lowering, s: Status) {
    BySymbol(h, s.symbol).Some?
    && var previous := BySymbol(h, s.symbol).value;
       var key := Normalize(lower, previous.name);
       && Holder(h, lower, key) == Some(previous)
       && Normalize(lower, s.name) != key
       && exists j :: Live(h, j) && h[j].symbol != s.symbol && Normalize(lower, h[j].name) == key
  }

  /** An accepted insert keeps all live statuses reachable by name exactly when it takes no shared name. */
  lemma NamesStayCompleteIff(h: History, lower: Lowering, s: Status)
    requires NamesComplete(h, lower)
    ensures NamesComplete(h + [s], lower) <==> !TakesSharedName(h, lower, s)
  {
    hide Normalize;
    var n := h + [s];
    assert n[..|h|] == h;
    if TakesSharedName(h, lower, s) {
      var key := Normalize(lower, BySymbol(h, s.symbol).value.name);
      var j :| Live(h, j) && h[j].symbol != s.symbol && Normalize(lower, h[j].name) == key;
      LiveAfter(h, s, j);
      LiveAfter(h, s, LastNamed(h, lower, key));
      assert n[j] == h[j] && ByName(n, lower, n[j].name).None?;
    } else {
      forall j | Live(n, j) ensures ByName(n, lower, n[j].name).Some? {
        NameSurvives(h, lower, s, j);
      }
    }
  }

  lemma NameSurvives(h: History, lower: Lowering, s: Status, j: int)
    requires NamesComplete(h, lower) && !TakesSharedName(h, lower, s) && Live(h + [s], j)
    ensures ByName(h + [s], lower, (h + [s])[j].name).Some?
  {
    hide Normalize;
    var n := h + [s];
    assert n[..|h|] == h;
    var key := Normalize(lower, n[j].name);
    if key == Normalize(lower, s.name) {
      assert LastNamed(n, lower, key) == |h| && Live(n, |h|);
    } else {
      assert n[j] == h[j];
      LiveAfter(h, s, j);
      var i := LastNamed(h, lower, key);
      assert ByName(h, lower, h[j].name).Some?;
      LiveAfter(h, s, i);
      assert LastOf(h, h[i].symbol) == i;
    }
  }

  /** The default statuses can all be found by name. */
  lemma DefaultNamesComplete(lower: Lowering)
    ensures NamesComplete(DEFAULTS, lower)
  {
    hide Normalize, DEFAULTS;
    forall i | Live(DEFAULTS, i) ensures ByName(DEFAULTS, lower, DEFAULTS[i].name).Some? {
      var j := LastNamed(DEFAULTS, lower, Normalize(lower, DEFAULTS[i].name));
      forall k | j < k < |DEFAULTS| ensures DEFAULTS[k].symbol != DEFAULTS[j].symbol {
        DefaultsAreDistinct(k, j);
      }
    }
  }

  /** No accepted insert of the run takes a name that another live status still has. */
  ghost predicate TakesNoSharedName(h: History, lower: Lowering, inserts: seq<Status>)
    decreases |inserts|
  {
    inserts != [] ==>
      && (IsDelimiter(inserts[0].symbol) || !TakesSharedName(h, lower, inserts[0]))
      && TakesNoSharedName(Written(h, inserts[0]), lower, inserts[1..])
  }

  /** Names are complete now and after every insert of the run. */
  ghost predicate StaysComplete(h: History, lower: Lowering, inserts: seq<Status>)
    decreases |inserts|
  {
    NamesComplete(h, lower)
    && (inserts != [] ==> StaysComplete(Written(h, inserts[0]), lower, inserts[1..]))
  }

  /** A run keeps names complete throughout exactly when none of its inserts takes a shared name. */
  lemma {:induction false} RunStaysCompleteIff(h: History, lower: Lowering, inserts: seq<Status>)
    requires NamesComplete(h, lower)
    ensures StaysComplete(h, lower, inserts) <==> TakesNoSharedName(h, lower, inserts)
    decreases |inserts|
  {
    hide NamesComplete, TakesSharedName;
    if inserts != [] {
      NamesStayCompleteIff(h, lower, inserts[0]);
      var next := Written(h, inserts[0]);
      if NamesComplete(next, lower) {
        RunStaysCompleteIff(next, lower, inserts[1..]);
      } else {
        IncompleteNow(next, lower, inserts[1..]);
      }
    }
  }

  lemma IncompleteNow(h: History, lower: Lowering, inserts: seq<Status>)
    requires !NamesComplete(h, lower)
    ensures !StaysComplete(h, lower, inserts)
  {}

  lemma DefaultEntries()
    ensures |DEFAULTS| == 6
    ensures DEFAULTS[1] == Status('x', "Done", Done) && DEFAULTS[2] == Status('X', "Done", Done)
    ensures DEFAULTS[3].symbol == '/' && DEFAULTS[4].symbol == '-' && DEFAULTS[5].symbol == '!'
    ensures DEFAULTS[3].name == "In Progress" && DEFAULTS[4].name == "Cancelled" && DEFAULTS[5].name == "On Hold"
  {}

  /**
   The default table has two statuses named "Done". Renaming the second one hides the
   first from lookup by name, although its symbol and its kind still find it.
   */
  lemma RenamingHidesName(lower: Lowering)
    requires forall name <- ["Todo", "In Progress", "Cancelled", "On Hold", "Finished"] ::
               Normalize(lower, name) != Normalize(lower, "Done")
    ensures var h := Written(DEFAULTS, Status('X', "Finished", Done));
            var done := Status('x', "Done", Done);
            ByName(DEFAULTS, lower, "Done") == Some(Status('X', "Done", Done))
            && ByName(h, lower, "Done") == None
            && BySymbol(h, 'x') == Some(done) && done in ByKind(h, Done)
  {
    hide Normalize, LiveFrom, DEFAULTS;
    var h := Written(DEFAULTS, Status('X', "Finished", Done));
    var done := Status('x', "Done", Done);
    var key := Normalize(lower, "Done");
    var names := ["Todo", "In Progress", "Cancelled", "On Hold", "Finished"];
    assert names[1] in names && names[2] in names && names[3] in names && names[4] in names;
    DefaultEntries();
    assert h[6].name == names[4] && forall k :: 0 <= k < 6 ==> h[k] == DEFAULTS[k];
    assert LastNamed(DEFAULTS, lower, key) == 2 && LastNamed(h, lower, key) == 2;
    assert LastOf(h, 'x') == 1;
    SymbolAndKindAgree(h, done);
  }

  // ---------------------------------------------------------------- the map itself

  class TaskStatusMap {
    const lower: Lowering
    var symbols: map<char, Status>
    var names: map<string, Status>
    var kinds: map<Kind, seq<Status>>
    ghost var history: History

    ghost function State(): Tables
      reads this
    {
      Tables(symbols, names, kinds)
    }

    /** The tables say what the accepted writes say. */
    ghost predicate Valid()
      reads this
    {
      Agrees(State(), lower, history)
    }

    constructor Default(lower: Lowering)
      ensures Valid() && history == DEFAULTS && this.lower == lower
    {
      this.lower := lower;
      symbols, names, kinds, history := map[], map[], map[], [];
      new;
      var i := 0;
      while i < |DEFAULTS|
        invariant 0 <= i <= |DEFAULTS|
        invariant Valid() && history == DEFAULTS[..i]
      {
        hide Agrees;
        NewDefault(State(), lower, history, i);
        IndexStatus(DEFAULTS[i]);
        i := i + 1;
      }
    }

    method Insert(status: Status) returns (r: Result<(), StatusError>)
      requires Valid()
      modifies this
      ensures Valid() && history == Written(old(history), status)
      ensures if IsDelimiter(status.symbol)
              then r == Err(ProhibitedStatusSymbol(status.symbol)) && State() == old(State())
              else r == Ok(())
    {
      hide Agrees;
      InsertedAgrees(State(), lower, history, status);
      if IsDelimiter(status.symbol) { return Err(ProhibitedStatusSymbol(status.symbol)); }
      PurgeStaleEntries(status);
      IndexStatus(status);
      r := Ok(());
    }

    method PurgeStaleEntries(status: Status)
      modifies this`names, this`kinds
      ensures State() == Purged(old(State()), lower, status)
    {
      if status.symbol !in symbols { return; }
      var previous := symbols[status.symbol];
      if previous.kind in kinds {
        kinds := kinds[previous.kind := Retained(kinds[previous.kind], previous.symbol)];
      }
      var key := NormalizeName(lower, previous.name);
      if key in names && names[key].symbol == previous.symbol {
        names := names - {key};
      }
    }

    method IndexStatus(status: Status)
      modifies this
      ensures State() == Indexed(old(State()), lower, status)
      ensures history == old(history) + [status]
    {
      var bucket := if status.kind in kinds then kinds[status.kind] else [];
      kinds := kinds[status.kind := bucket + [status]];
      symbols := symbols[status.symbol := status];
      var key := NormalizeName(lower, status.name);
      names := names[key := status];
      history := history + [status];
    }

    /** Falls back to a todo that keeps the unknown symbol. */
    method Resolve(symbol: char) returns (r: Status)
      requires Valid()
      ensures r == if BySymbol(history, symbol).Some? then BySymbol(history, symbol).value
                   else Status(symbol, "Todo", Todo)
      ensures r.symbol == symbol
    {
      assert Lookup(State().symbols, symbol) == BySymbol(history, symbol);
      r := if symbol in symbols then symbols[symbol] else Status(symbol, "Todo", Todo);
    }

    method FindBySymbol(symbol: char) returns (r: Option<Status>)
      requires Valid()
      ensures r == BySymbol(history, symbol)
    {
      assert Lookup(State().symbols, symbol) == BySymbol(history, symbol);
      r := Lookup(symbols, symbol);
    }

    method FindByName(name: string) returns (r: Option<Status>)
      requires Valid()
      ensures r == ByName(history, lower, name)
    {
      var key := NormalizeName(lower, name);
      assert Lookup(State().names, key) == Holder(history, lower, key);
      r := Lookup(names, key);
    }

    method FindByType(kind: Kind) returns (r: seq<Status>)
      requires Valid()
      ensures r == ByKind(history, kind)
    {
      assert Bucket(State(), kind) == ByKind(history, kind);
      r := if kind in kinds then kinds[kind] else [];
    }
  }

  lemma DefaultsAreDistinct(i: nat, j: nat)
    requires j < i < |DEFAULTS|
    ensures DEFAULTS[j].symbol != DEFAULTS[i].symbol
  {}

  lemma DefaultsAreAllowed(i: nat)
    requires i < |DEFAULTS|
    ensures !IsDelimiter(DEFAULTS[i].symbol)
  {}

  lemma NewSymbolNeedsNoPurge(t: Tables, lower: Lowering, h: History, s: Status)
    requires Agrees(t, lower, h) && forall j :: 0 <= j < |h| ==> h[j].symbol != s.symbol
    ensures Purged(t, lower, s) == t
  {
    assert Lookup(t.symbols, s.symbol) == BySymbol(h, s.symbol);
  }

  /** The default symbols differ, so indexing them needs no purge. */
  lemma NewDefault(t: Tables, lower: Lowering, h: History, i: nat)
    requires i < |DEFAULTS| && h == DEFAULTS[..i] && Agrees(t, lower, h)
    ensures Agrees(Indexed(t, lower, DEFAULTS[i]), lower, h + [DEFAULTS[i]])
    ensures h + [DEFAULTS[i]] == DEFAULTS[..i + 1]
  {
    hide Agrees, Indexed, Purged, IsDelimiter;
    hide DEFAULTS;
    var s := DEFAULTS[i];
    forall j | 0 <= j < |h| ensures h[j].symbol != s.symbol {
      DefaultsAreDistinct(i, j);
    }
    DefaultsAreAllowed(i);
    NewSymbolNeedsNoPurge(t, lower, h, s);
    InsertedAgrees(t, lower, h, s);
  }
}
