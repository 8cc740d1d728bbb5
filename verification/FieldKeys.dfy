/** Forgiving field keys and their hashed lookup: `src/field.rs`. */
module FieldKeys {
  import opened Wrappers
  import opened Text

  /** Kept by `canonicalize` rather than replaced or stripped. */
  predicate IsKept(c: char) {
    c == '_' || c == '-' || IsAlpha(c) || IsDigit(c) || !IsAscii(c)
  }

  /** What one character contributes to the canonical form. */
  function Piece(lower: Lowering, c: char): string {
    if IsAsciiWhitespace(c) then "-"
    else if IsKept(c) then lower(c)
    else ""
  }

  function Canonical(lower: Lowering, raw: string): string {
    if raw == [] then [] else Canonical(lower, raw[..|raw| - 1]) + Piece(lower, raw[|raw| - 1])
  }

  method Canonicalize(lower: Lowering, raw: string) returns (result: string)
    ensures result == Canonical(lower, raw)
  {
    result := "";
    var i := 0;
    while i < |raw|
      invariant i <= |raw|
      invariant result == Canonical(lower, raw[..i])
    {
      var ch := raw[i];
      assert raw[..i + 1][..i] == raw[..i];
      i := i + 1;
      if IsAsciiWhitespace(ch) {
        result := result + ['-'];
        continue;
      }
      if IsKept(ch) {
        var j, lowered, before := 0, lower(ch), result;
        while j < |lowered|
          invariant j <= |lowered|
          invariant result == before + lowered[..j]
        {
          result := result + [lowered[j]];
          j := j + 1;
        }
        assert lowered[..j] == lowered;
      }
    }
    assert raw[..i] == raw;
  }

  predicate IsCanonicalEmpty(raw: string) {
    forall c <- raw :: !IsAsciiWhitespace(c) && !IsKept(c)
  }

  predicate IsSettled(lower: Lowering, c: char) {
    !IsAsciiWhitespace(c) && IsKept(c) && lower(c) == [c]
  }

  predicate IsCanonical(lower: Lowering, raw: string) {
    raw != [] && forall c <- raw :: IsSettled(lower, c)
  }

  /** Borrows the text when it is canonical already. */
  function ToCanonical(lower: Lowering, raw: string): string {
    if IsCanonical(lower, raw) then raw else Canonical(lower, raw)
  }

  // ---------------------------------------------------------------- keys

  datatype FieldKey = FieldKey(name: string, canonical: string)

  datatype KeyError = EmptyName | ContainsSlash | EmptyCanonical

  /** Every key is built with the canonical form of its name. */
  predicate IsKey(lower: Lowering, key: FieldKey) {
    key.canonical == Canonical(lower, key.name)
  }

  method TryNew(lower: Lowering, raw: string) returns (r: Result<FieldKey, KeyError>)
    requires Settles(lower)
    ensures Trim(raw) == [] <==> r == Err(EmptyName)
    ensures Trim(raw) != [] && '/' in raw <==> r == Err(ContainsSlash)
    ensures r.Ok? <==> Trim(raw) != [] && '/' !in raw && Canonical(lower, raw) != []
    ensures r.Ok? ==> r.value.name == raw && IsKey(lower, r.value)
  {
    hide Trim;
    if Trim(raw) == [] { return Err(EmptyName); }
    if '/' in raw { return Err(ContainsSlash); }
    EmptyIffStripped(lower, raw);
    if IsCanonicalEmpty(raw) { return Err(EmptyCanonical); }
    var canonical := Canonicalize(lower, raw);
    r := Ok(FieldKey(raw, canonical));
  }

  predicate IsCanonicalMatch(lower: Lowering, key: FieldKey, candidate: string) {
    key.canonical == candidate || key.canonical == ToCanonical(lower, candidate)
  }

  predicate IsMatch(lower: Lowering, key: FieldKey, candidate: string) {
    key.name == candidate || IsCanonicalMatch(lower, key, candidate)
  }

  predicate KeysEqual(a: FieldKey, b: FieldKey) {
    a.canonical == b.canonical
  }

  // ---------------------------------------------------------------- canonical forms

  /** What Unicode promises: lower-casing a kept character gives kept, lower-case characters. */
  ghost predicate Settles(lower: Lowering) {
    (forall c: char :: IsKept(c) ==> lower(c) != [] && forall d <- lower(c) :: IsSettled(lower, d))
    && lower('-') == "-"
  }

  lemma {:induction false} CanonicalSettles(lower: Lowering, raw: string)
    requires Settles(lower)
    ensures forall d <- Canonical(lower, raw) :: IsSettled(lower, d)
  {
    if raw != [] {
      CanonicalSettles(lower, raw[..|raw| - 1]);
      assert forall d <- Piece(lower, raw[|raw| - 1]) :: IsSettled(lower, d);
    }
  }

  lemma {:induction false} SettledStays(lower: Lowering, s: string)
    requires forall i :: 0 <= i < |s| ==> IsSettled(lower, s[i])
    ensures Canonical(lower, s) == s
  {
    if s != [] {
      SettledStays(lower, s[..|s| - 1]);
      assert s == s[..|s| - 1] + [s[|s| - 1]];
    }
  }

  lemma {:induction false} EmptyIffStripped(lower: Lowering, raw: string)
    requires Settles(lower)
    ensures IsCanonicalEmpty(raw) <==> Canonical(lower, raw) == []
  {
    if raw != [] {
      var init, last := raw[..|raw| - 1], raw[|raw| - 1];
      EmptyIffStripped(lower, init);
      assert raw == init + [last];
      assert last in raw && forall c <- init :: c in raw;
    }
  }

  /** Borrowing the canonical text instead of rebuilding it changes nothing. */
  lemma ToCanonicalIsCanonical(lower: Lowering, raw: string)
    ensures ToCanonical(lower, raw) == Canonical(lower, raw)
  {
    if IsCanonical(lower, raw) {
      assert forall i :: 0 <= i < |raw| ==> raw[i] in raw;
      SettledStays(lower, raw);
    }
  }

  /** The shortcut test accepts exactly the non-empty fixed points of `canonicalize`. */
  lemma CanonicalIffFixedPoint(lower: Lowering, raw: string)
    requires Settles(lower)
    ensures IsCanonical(lower, raw) <==> raw != [] && Canonical(lower, raw) == raw
  {
    ToCanonicalIsCanonical(lower, raw);
    CanonicalSettles(lower, raw);
  }

  lemma CanonicalIsIdempotent(lower: Lowering, raw: string)
    requires Settles(lower)
    ensures Canonical(lower, Canonical(lower, raw)) == Canonical(lower, raw)
  {
    var s := Canonical(lower, raw);
    CanonicalSettles(lower, raw);
    assert forall i :: 0 <= i < |s| ==> s[i] in s;
    SettledStays(lower, s);
  }

  // ---------------------------------------------------------------- matching and hashing

  /** The three ways to match are one: the canonical forms are equal. */
  lemma MatchIffSameCanonical(lower: Lowering, key: FieldKey, candidate: string)
    requires Settles(lower) && IsKey(lower, key)
    ensures IsMatch(lower, key, candidate) <==> key.canonical == Canonical(lower, candidate)
  {
    ToCanonicalIsCanonical(lower, candidate);
    CanonicalIsIdempotent(lower, key.name);
  }

  // Hashes of text, collisions allowed.
  type TextHash = string -> int

  function KeyHash(hash: TextHash, key: FieldKey): int {
    hash(key.canonical)
  }

  function RefHash(hash: TextHash, lower: Lowering, candidate: string): int {
    hash(ToCanonical(lower, candidate))
  }

  /** What a hashed lookup requires of its key: equivalent values hash alike. */
  lemma EquivalentHashesAlike(hash: TextHash, lower: Lowering, key: FieldKey, candidate: string)
    requires Settles(lower) && IsKey(lower, key) && IsMatch(lower, key, candidate)
    ensures RefHash(hash, lower, candidate) == KeyHash(hash, key)
  {
    ToCanonicalIsCanonical(lower, candidate);
    MatchIffSameCanonical(lower, key, candidate);
  }

  /** The keys of an index map: built as keys, no two equal. */
  ghost predicate IsKeySet(lower: Lowering, keys: seq<FieldKey>) {
    (forall i :: 0 <= i < |keys| ==> IsKey(lower, keys[i]))
    && forall i, j :: 0 <= i < j < |keys| ==> !KeysEqual(keys[i], keys[j])
  }

  /** First key from `i` on that a linear scan with `is_match` finds. */
  function ScannedFrom(lower: Lowering, keys: seq<FieldKey>, candidate: string, i: nat): Option<nat>
    requires i <= |keys|
    decreases |keys| - i
  {
    if i == |keys| then None
    else if IsMatch(lower, keys[i], candidate) then Some(i)
    else ScannedFrom(lower, keys, candidate, i + 1)
  }

  /** First key from `i` on that a hashed lookup reaches: same hash, then equivalent. */
  function HashedFrom(hash: TextHash, lower: Lowering, keys: seq<FieldKey>, candidate: string, i: nat): Option<nat>
    requires i <= |keys|
    decreases |keys| - i
  {
    if i == |keys| then None
    else if KeyHash(hash, keys[i]) == RefHash(hash, lower, candidate) && IsMatch(lower, keys[i], candidate) then Some(i)
    else HashedFrom(hash, lower, keys, candidate, i + 1)
  }

  /** Hashing loses no match. */
  lemma {:induction false} HashedFindsWhatScanFinds(
    hash: TextHash, lower: Lowering, keys: seq<FieldKey>, candidate: string, i: nat)
    requires Settles(lower) && IsKeySet(lower, keys) && i <= |keys|
    ensures HashedFrom(hash, lower, keys, candidate, i) == ScannedFrom(lower, keys, candidate, i)
    decreases |keys| - i
  {
    hide Settles, IsMatch, KeyHash, RefHash;
    if i < |keys| {
      if IsMatch(lower, keys[i], candidate) { EquivalentHashesAlike(hash, lower, keys[i], candidate); }
      HashedFindsWhatScanFinds(hash, lower, keys, candidate, i + 1);
    }
  }

  /** At most one key matches, so the order of probing does not matter. */
  lemma AtMostOneMatch(lower: Lowering, keys: seq<FieldKey>, candidate: string, i: nat, j: nat)
    requires Settles(lower) && IsKeySet(lower, keys) && i < |keys| && j < |keys|
    requires IsMatch(lower, keys[i], candidate) && IsMatch(lower, keys[j], candidate)
    ensures i == j
  {
    hide Settles, IsMatch;
    assert (i < j ==> !KeysEqual(keys[i], keys[j])) && (j < i ==> !KeysEqual(keys[j], keys[i]));
    MatchIffSameCanonical(lower, keys[i], candidate);
    MatchIffSameCanonical(lower, keys[j], candidate);
  }

  // ---------------------------------------------------------------- what canonical forms forget

  lemma {:induction false} CanonicalConcat(lower: Lowering, a: string, b: string)
    ensures Canonical(lower, a + b) == Canonical(lower, a) + Canonical(lower, b)
    decreases |b|
  {
    hide Piece;
    if b == [] {
      assert a + b == a;
    } else {
      var front, last := b[..|b| - 1], b[|b| - 1];
      CanonicalConcat(lower, a, front);
      assert a + b == (a + front) + [last] && b == front + [last];
      CanonicalSnoc(lower, a + front, last);
      CanonicalSnoc(lower, front, last);
      assert (Canonical(lower, a) + Canonical(lower, front)) + Piece(lower, last)
          == Canonical(lower, a) + (Canonical(lower, front) + Piece(lower, last));
    }
  }

  lemma CanonicalSnoc(lower: Lowering, front: string, last: char)
    ensures Canonical(lower, front + [last]) == Canonical(lower, front) + Piece(lower, last)
  {
    assert (front + [last])[..|front|] == front;
  }

  lemma CanonicalOne(lower: Lowering, c: char)
    ensures Canonical(lower, [c]) == Piece(lower, c)
  {
    CanonicalSnoc(lower, "", c);
    assert "" + [c] == [c];
  }

  lemma CanonicalAround(lower: Lowering, a: string, c: char, b: string)
    ensures Canonical(lower, a + [c] + b) == Canonical(lower, a) + Piece(lower, c) + Canonical(lower, b)
  {
    hide Canonical;
    CanonicalConcat(lower, a + [c], b);
    CanonicalConcat(lower, a, [c]);
    CanonicalOne(lower, c);
  }

  /** ASCII white space and a dash are the same in a key: `due date` is `due-date`. */
  lemma SpaceIsDash(lower: Lowering, a: string, w: char, b: string)
    requires lower('-') == "-" && (w == ' ' || w == '\t' || w == '\n' || w == '\r' || w as int == 12)
    ensures Canonical(lower, a + [w] + b) == Canonical(lower, a + "-" + b)
  {
    hide Canonical;
    CanonicalAround(lower, a, w, b);
    CanonicalAround(lower, a, '-', b);
  }

  /** Other ASCII punctuation and symbols are dropped, and nothing else is. */
  lemma SymbolsAreDropped(lower: Lowering, a: string, c: char, b: string)
    requires Settles(lower)
    ensures var isNamed := c == '_' || c == '-' || IsAlpha(c) || IsDigit(c);
            var isSymbol := c as int < 128 && !isNamed && !IsAsciiWhitespace(c);
            Canonical(lower, a + [c] + b) == Canonical(lower, a + b) <==> isSymbol
  {
    hide Canonical;
    CanonicalAround(lower, a, c, b);
    CanonicalConcat(lower, a, b);
    var x, y, z := Canonical(lower, a), Piece(lower, c), Canonical(lower, b);
    assert |x + y + z| == |x| + |y| + |z|;
    if y == [] { assert x + y + z == x + z; }
  }

  /** Characters with the same lower case are the same in a key; settled ones stand for themselves. */
  lemma CaseIsForgotten(lower: Lowering, a: string, c: char, d: char, b: string)
    requires IsKept(c) && IsKept(d) && lower(c) == lower(d)
    ensures Canonical(lower, a + [c] + b) == Canonical(lower, a + [d] + b)
    ensures lower(c) == [c] ==> Canonical(lower, a + [c] + b) == Canonical(lower, a) + [c] + Canonical(lower, b)
  {
    hide Canonical;
    CanonicalAround(lower, a, c, b);
    CanonicalAround(lower, a, d, b);
  }
}
