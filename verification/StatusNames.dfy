/** Status names as lookup keys: `normalize_name` of `src/task.rs`. */
module StatusNames {
  import opened Text

  /** `split_whitespace`, with `word` already read. */
  function WordsFrom(s: string, word: string): seq<string>
    decreases |s|
  {
    if s == [] then Flush(word)
    else if IsWhitespace(s[0]) then Flush(word) + WordsFrom(s[1..], [])
    else WordsFrom(s[1..], word + [s[0]])
  }

  function Flush(word: string): seq<string> {
    if word == [] then [] else [word]
  }

  function Words(s: string): seq<string> {
    WordsFrom(s, [])
  }

  function Lowered(lower: Lowering, word: string): string {
    if word == [] then [] else Lowered(lower, word[..|word| - 1]) + lower(word[|word| - 1])
  }

  function Joined(lower: Lowering, words: seq<string>): string {
    if words == [] then []
    else if |words| == 1 then Lowered(lower, words[0])
    else Joined(lower, words[..|words| - 1]) + [' '] + Lowered(lower, words[|words| - 1])
  }

  /** The lookup key of a display name. */
  function Normalize(lower: Lowering, name: string): string {
    Joined(lower, Words(name))
  }

  method PushLowered(lower: Lowering, out: string, word: string) returns (r: string)
    ensures r == out + Lowered(lower, word)
  {
    r := out;
    var i := 0;
    while i < |word|
      invariant i <= |word|
      invariant r == out + Lowered(lower, word[..i])
    {
      assert word[..i + 1][..i] == word[..i];
      r := r + lower(word[i]);
      i := i + 1;
    }
    assert word[..i] == word;
  }

  method NormalizeName(lower: Lowering, name: string) returns (out: string)
    ensures out == Normalize(lower, name)
  {
    var words := Words(name);
    out := "";
    if |words| > 0 {
      out := PushLowered(lower, out, words[0]);
      var i := 1;
      assert words[..1] == [words[0]];
      while i < |words|
        invariant 1 <= i <= |words|
        invariant out == Joined(lower, words[..i])
      {
        assert words[..i + 1][..i] == words[..i];
        out := PushLowered(lower, out + [' '], words[i]);
        i := i + 1;
      }
      assert words[..i] == words;
    }
  }

  // ---------------------------------------------------------------- what the key ignores

  lemma {:induction false} WordsSplit(a: string, w: char, b: string, word: string)
    requires IsWhitespace(w)
    ensures WordsFrom(a + [w] + b, word) == WordsFrom(a, word) + Words(b)
    decreases |a|
  {
    var s := a + [w] + b;
    if a == [] {
      assert s[1..] == b;
    } else {
      assert s[1..] == a[1..] + [w] + b;
      WordsSplit(a[1..], w, b, if IsWhitespace(a[0]) then [] else word + [a[0]]);
    }
  }

  predicate IsSpace(s: string) {
    forall c <- s :: IsWhitespace(c)
  }

  lemma {:induction false} SpaceHasNoWords(gap: string, b: string)
    requires IsSpace(gap)
    ensures Words(gap + b) == Words(b)
    decreases |gap|
  {
    if gap == [] {
      assert gap + b == b;
    } else {
      assert gap + b == [] + [gap[0]] + (gap[1..] + b);
      WordsSplit([], gap[0], gap[1..] + b, []);
      SpaceHasNoWords(gap[1..], b);
    }
  }

  /** Any run of white space between two parts of a name is the same as one space. */
  lemma InnerSpaceCollapses(lower: Lowering, a: string, gap: string, b: string)
    requires gap != [] && IsSpace(gap)
    ensures Normalize(lower, a + gap + b) == Normalize(lower, a + " " + b)
  {
    assert a + gap + b == a + [gap[0]] + (gap[1..] + b);
    WordsSplit(a, gap[0], gap[1..] + b, []);
    SpaceHasNoWords(gap[1..], b);
    WordsSplit(a, ' ', b, []);
  }

  /** White space around a name is ignored. */
  lemma OuterSpaceIgnored(lower: Lowering, before: string, a: string, after: string)
    requires IsSpace(before) && IsSpace(after)
    ensures Normalize(lower, before + a + after) == Normalize(lower, a)
  {
    assert before + a + after == before + (a + after);
    SpaceHasNoWords(before, a + after);
    if after == [] {
      assert a + after == a;
    } else {
      assert a + after == a + [after[0]] + after[1..];
      WordsSplit(a, after[0], after[1..], []);
      SpaceHasNoWords(after[1..], []);
      assert after[1..] + [] == after[1..];
      assert Words(a) + [] == Words(a);
    }
  }

  // ---------------------------------------------------------------- keys are their own keys

  /** What Unicode promises: lower-casing gives non-space characters that are lower-case already. */
  ghost predicate Settles(lower: Lowering) {
    forall c: char :: !IsWhitespace(c) ==>
      lower(c) != [] && forall d <- lower(c) :: IsLower(lower, d)
  }

  predicate IsLower(lower: Lowering, c: char) {
    !IsWhitespace(c) && lower(c) == [c]
  }

  /** A non-empty word of lower-case characters. */
  ghost predicate IsKeyWord(lower: Lowering, word: string) {
    word != [] && forall c <- word :: IsLower(lower, c)
  }

  predicate IsSolid(word: string) {
    word != [] && forall c <- word :: !IsWhitespace(c)
  }

  lemma {:induction false} WordsAreSolid(s: string, word: string)
    requires word == [] || IsSolid(word)
    ensures forall w <- WordsFrom(s, word) :: IsSolid(w)
    decreases |s|
  {
    if s != [] { WordsAreSolid(s[1..], if IsWhitespace(s[0]) then [] else word + [s[0]]); }
  }

  lemma {:induction false} SolidIsOneWord(s: string, word: string)
    requires forall c <- s :: !IsWhitespace(c)
    ensures WordsFrom(s, word) == Flush(word + s)
    decreases |s|
  {
    if s == [] {
      assert word + s == word;
    } else {
      SolidIsOneWord(s[1..], word + [s[0]]);
      assert word + [s[0]] + s[1..] == word + s;
    }
  }

  lemma {:induction false} LoweredSettles(lower: Lowering, word: string)
    requires Settles(lower) && IsSolid(word)
    ensures IsKeyWord(lower, Lowered(lower, word))
  {
    var init, last := word[..|word| - 1], word[|word| - 1];
    assert last in word;
    if init != [] {
      assert forall c <- init :: c in word;
      LoweredSettles(lower, init);
    }
  }

  lemma {:induction false} KeyWordStays(lower: Lowering, word: string)
    requires forall i :: 0 <= i < |word| ==> IsLower(lower, word[i])
    ensures Lowered(lower, word) == word
  {
    if word != [] {
      assert IsLower(lower, word[|word| - 1]);
      KeyWordStays(lower, word[..|word| - 1]);
      assert word == word[..|word| - 1] + [word[|word| - 1]];
    }
  }

  lemma NoWords()
    ensures Words([]) == []
  {}

  lemma KeyIsOneWord(lower: Lowering, key: string)
    requires IsKeyWord(lower, key)
    ensures Words(key) == [key]
  {
    SolidIsOneWord(key, []);
    assert [] + key == key;
  }

  /** The words of a key are the lowered words of the name. */
  lemma {:induction false} WordsOfJoined(lower: Lowering, words: seq<string>)
    requires Settles(lower) && forall w <- words :: IsSolid(w)
    ensures var keys := Words(Joined(lower, words));
            |keys| == |words| && forall i :: 0 <= i < |words| ==> keys[i] == Lowered(lower, words[i])
  {
    hide Settles, WordsFrom, IsSolid, Lowered;
    NoWords();
    if words != [] {
      var init, last := words[..|words| - 1], Lowered(lower, words[|words| - 1]);
      assert words[|words| - 1] in words;
      LoweredSettles(lower, words[|words| - 1]);
      KeyIsOneWord(lower, last);
      if init != [] {
        assert forall w <- init :: w in words;
        WordsOfJoined(lower, init);
        WordsSplit(Joined(lower, init), ' ', last, []);
      }
    }
  }

  lemma {:induction false} JoinedKeys(lower: Lowering, words: seq<string>, keys: seq<string>)
    requires Settles(lower) && |keys| == |words|
    requires forall i :: 0 <= i < |words| ==> IsSolid(words[i]) && keys[i] == Lowered(lower, words[i])
    ensures Joined(lower, keys) == Joined(lower, words)
  {
    if words != [] {
      var n := |words| - 1;
      LoweredSettles(lower, words[n]);
      assert forall i :: 0 <= i < |keys[n]| ==> keys[n][i] in keys[n];
      KeyWordStays(lower, keys[n]);
      JoinedKeys(lower, words[..n], keys[..n]);
    }
  }

  /** A key looks itself up: normalizing twice is normalizing once. */
  lemma NormalizeIsIdempotent(lower: Lowering, name: string)
    requires Settles(lower)
    ensures Normalize(lower, Normalize(lower, name)) == Normalize(lower, name)
  {
    WordsAreSolid(name, []);
    WordsOfJoined(lower, Words(name));
    JoinedKeys(lower, Words(name), Words(Normalize(lower, name)));
  }

  /** Two names share a key exactly when their words have the same lower case. */
  lemma SameKeyIff(lower: Lowering, a: string, b: string)
    requires Settles(lower)
    ensures Normalize(lower, a) == Normalize(lower, b) <==> SameWords(lower, Words(a), Words(b))
  {
    hide Settles, Joined, Lowered, IsSolid;
    var x, y := Words(a), Words(b);
    WordsAreSolid(a, []);
    WordsAreSolid(b, []);
    WordsOfJoined(lower, x);
    WordsOfJoined(lower, y);
    if SameWords(lower, x, y) { JoinedSame(lower, x, y); }
  }

  predicate SameWords(lower: Lowering, x: seq<string>, y: seq<string>) {
    |x| == |y| && forall i :: 0 <= i < |x| ==> Lowered(lower, x[i]) == Lowered(lower, y[i])
  }

  lemma {:induction false} JoinedSame(lower: Lowering, x: seq<string>, y: seq<string>)
    requires SameWords(lower, x, y)
    ensures Joined(lower, x) == Joined(lower, y)
    decreases |x|
  {
    if x != [] { JoinedSame(lower, x[..|x| - 1], y[..|y| - 1]); }
  }

  /** Lower-casing goes character by character. */
  lemma {:induction false} LoweredConcat(lower: Lowering, a: string, b: string)
    ensures Lowered(lower, a + b) == Lowered(lower, a) + Lowered(lower, b)
    ensures forall c :: Lowered(lower, [c]) == lower(c)
    decreases |b|
  {
    assert forall c: char :: [c][..0] == [];
    if b == [] {
      assert a + b == a;
    } else {
      var front := b[..|b| - 1];
      assert (a + b)[..|a + b| - 1] == a + front;
      LoweredConcat(lower, a, front);
    }
  }
}
