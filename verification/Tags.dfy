/** Tag recognition and the tag hierarchy: `src/tag.rs`. */
module Tags {
  import opened Wrappers
  import opened Text

  // Unicode's alphabetic and alphanumeric characters.
  datatype Letters = Letters(alphabetic: char -> bool, alphanumeric: char -> bool)

  datatype TagError =
    | MissingHash
    | InvalidFirstCharacter(found: char)
    | InvalidBodyCharacter(offset: nat, found: char)

  predicate IsBodyChar(u: Letters, c: char) {
    u.alphanumeric(c) || c == '_' || c == '/' || c == '-'
  }

  /** `#`, a letter, then body characters. */
  predicate IsTag(u: Letters, s: string) {
    |s| >= 2 && s[0] == '#' && u.alphabetic(s[1]) && forall i :: 2 <= i < |s| ==> IsBodyChar(u, s[i])
  }

  /** Offsets are bytes after the `#`, as the error reports them. */
  ghost predicate Refuses(u: Letters, input: string, error: TagError) {
    match error
    case MissingHash => |input| < 2 || input[0] != '#'
    case InvalidFirstCharacter(c) => |input| >= 2 && input[0] == '#' && c == input[1] && !u.alphabetic(c)
    case InvalidBodyCharacter(offset, c) =>
      exists k :: StopsAt(u, input, k, offset, c)
  }

  /** The first character that is not a body character. */
  predicate StopsAt(u: Letters, input: string, k: nat, offset: nat, c: char) {
    2 <= k < |input| && IsTag(u, input[..k]) && c == input[k] && !IsBodyChar(u, c)
    && offset == ByteLen(input[1..k])
  }

  /** An input is refused for one reason at most, and a tag for none. */
  lemma OneRefusal(u: Letters, input: string)
    ensures forall a, b :: Refuses(u, input, a) && Refuses(u, input, b) ==> a == b
    ensures forall error :: Refuses(u, input, error) ==> !IsTag(u, input)
  {
    forall j, k, m, n, a, b | StopsAt(u, input, j, m, a) && StopsAt(u, input, k, n, b) ensures j == k {
      OneStop(u, input, j, m, a, k, n, b);
    }
  }

  lemma OneStop(u: Letters, input: string, j: nat, m: nat, a: char, k: nat, n: nat, b: char)
    requires StopsAt(u, input, j, m, a) && StopsAt(u, input, k, n, b)
    ensures j == k
  {
    BodyBefore(u, input, j);
    BodyBefore(u, input, k);
  }

  lemma BodyBefore(u: Letters, input: string, k: nat)
    requires k <= |input| && IsTag(u, input[..k])
    ensures forall i {:trigger input[i]} :: 2 <= i < k ==> IsBodyChar(u, input[i])
  {
    forall i | 2 <= i < k ensures IsBodyChar(u, input[i]) {
      assert input[..k][i] == input[i];
    }
  }

  method Parse(u: Letters, input: string) returns (r: Result<string, TagError>)
    ensures r.Ok? <==> IsTag(u, input)
    ensures r.Ok? ==> r.value == input
    ensures forall error :: Refuses(u, input, error) <==> r == Err(error)
  {
    OneRefusal(u, input);
    if |input| < 2 || input[0] != '#' { return Err(MissingHash); }
    var first := input[1];
    if !u.alphabetic(first) { return Err(InvalidFirstCharacter(first)); }
    var k, end := 2, Utf8Len(first);
    assert input[1..k] == [first] && [first][..0] == [];
    while k < |input|
      invariant 2 <= k <= |input|
      invariant IsTag(u, input[..k])
      invariant end == ByteLen(input[1..k])
    {
      var ch := input[k];
      if !IsBodyChar(u, ch) {
        assert !IsTag(u, input) && StopsAt(u, input, k, end, ch);
        return Err(InvalidBodyCharacter(end, ch));
      }
      assert input[1..k + 1] == input[1..k] + [ch] && input[1..k + 1][..k - 1] == input[1..k];
      end := end + Utf8Len(ch);
      k := k + 1;
    }
    assert input[..k] == input;
    r := Ok(input[..k]);
  }

  /** The byte length of the longest tag that `input` starts with. */
  method PrefixLen(u: Letters, input: string) returns (r: Option<nat>)
    ensures r == match LongestTag(u, input) case None => None case Some(n) => Some(ByteLen(input[..n]))
  {
    if |input| < 2 || input[0] != '#' { return None; }
    var first := input[1];
    if !u.alphabetic(first) { return None; }
    var k, end := 2, 1 + Utf8Len(first);
    ByteLenStep(input, 0);
    ByteLenStep(input, 1);
    while k < |input|
      invariant 2 <= k <= |input|
      invariant forall i :: 2 <= i < k ==> IsBodyChar(u, input[i])
      invariant end == ByteLen(input[..k])
    {
      if !IsBodyChar(u, input[k]) { break; }
      ByteLenStep(input, k);
      end := end + Utf8Len(input[k]);
      k := k + 1;
    }
    BodyEndIs(u, input, 2, k);
    r := Some(end);
  }

  /** Characters of the longest tag at the front of `s`. */
  function LongestTag(u: Letters, s: string): (r: Option<nat>)
    ensures r.Some? ==> 2 <= r.value <= |s|
  {
    if |s| >= 2 && s[0] == '#' && u.alphabetic(s[1]) then Some(BodyEnd(u, s, 2)) else None
  }

  function BodyEnd(u: Letters, s: string, k: nat): (r: nat)
    requires k <= |s|
    ensures k <= r <= |s|
    decreases |s| - k
  {
    if k < |s| && IsBodyChar(u, s[k]) then BodyEnd(u, s, k + 1) else k
  }

  lemma {:induction false} BodyEndIs(u: Letters, s: string, k: nat, end: nat)
    requires k <= end <= |s| && forall i :: k <= i < end ==> IsBodyChar(u, s[i])
    requires end < |s| ==> !IsBodyChar(u, s[end])
    ensures BodyEnd(u, s, k) == end
    decreases end - k
  {
    if k < end { BodyEndIs(u, s, k + 1, end); }
  }

  lemma {:induction false} BodyEndSpan(u: Letters, s: string, k: nat)
    requires k <= |s|
    ensures var end := BodyEnd(u, s, k);
            (forall i :: k <= i < end ==> IsBodyChar(u, s[i])) && (end < |s| ==> !IsBodyChar(u, s[end]))
    decreases |s| - k
  {
    if k < |s| && IsBodyChar(u, s[k]) { BodyEndSpan(u, s, k + 1); }
  }

  /** The prefix is a tag, no longer prefix is, and without one no prefix is a tag. */
  lemma LongestTagIsLongest(u: Letters, s: string, n: nat)
    requires n <= |s|
    ensures match LongestTag(u, s)
            case None => !IsTag(u, s[..n])
            case Some(longest) => IsTag(u, s[..longest]) && (n > longest ==> !IsTag(u, s[..n]))
  {
    if LongestTag(u, s).Some? {
      var longest := LongestTag(u, s).value;
      BodyEndSpan(u, s, 2);
      if n > longest { assert s[..n][longest] == s[longest]; }
    } else if n >= 2 {
      assert s[..n][0] == s[0] && s[..n][1] == s[1];
    }
  }

  /** `parse` accepts exactly when the longest prefix is the whole input, byte for byte. */
  lemma ParsesIffPrefixIsAll(u: Letters, s: string)
    ensures IsTag(u, s) <==>
              LongestTag(u, s).Some? && ByteLen(s[..LongestTag(u, s).value]) == ByteLen(s)
  {
    assert s[..|s|] == s;
    LongestTagIsLongest(u, s, |s|);
    if LongestTag(u, s).Some? && LongestTag(u, s).value < |s| {
      ByteLenGrows(s, LongestTag(u, s).value, |s|);
    }
  }

  // ---------------------------------------------------------------- hierarchy

  /** The ancestors of a tag from the root down, itself last. */
  function SegmentsFrom(tag: string, i: nat): seq<string>
    requires i <= |tag|
    decreases |tag| - i
  {
    if i == |tag| then [tag]
    else (if tag[i] == '/' then [tag[..i]] else []) + SegmentsFrom(tag, i + 1)
  }

  function Segments(tag: string): seq<string> {
    SegmentsFrom(tag, 0)
  }

  predicate IsContainedIn(tag: string, prefix: string) {
    prefix <= tag && (|tag| == |prefix| || tag[|prefix|] == '/')
  }

  lemma ContainedAtLength(tag: string, p: string)
    ensures IsContainedIn(tag, p) <==>
              |p| <= |tag| && p == tag[..|p|] && (|p| < |tag| ==> tag[|p|] == '/')
    ensures tag[..|tag|] == tag
  {}

  lemma InConcat(p: string, a: seq<string>, b: seq<string>)
    ensures p in a + b <==> p in a || p in b
  {}

  lemma {:induction false} SegmentIffContained(tag: string, i: nat, p: string)
    requires i <= |tag|
    ensures p in SegmentsFrom(tag, i) <==> IsContainedIn(tag, p) && |p| >= i
    decreases |tag| - i
  {
    hide IsContainedIn;
    ContainedAtLength(tag, p);
    if i < |tag| {
      var front := if tag[i] == '/' then [tag[..i]] else [];
      SegmentIffContained(tag, i + 1, p);
      InConcat(p, front, SegmentsFrom(tag, i + 1));
    }
  }

  /** For any string, being a container of a tag is being one of its segments. */
  lemma ContainedIffSegment(tag: string, p: string)
    ensures IsContainedIn(tag, p) <==> p in Segments(tag)
  {
    SegmentIffContained(tag, 0, p);
  }

  /** Every container of a tag is itself a tag. */
  lemma ContainersAreTags(u: Letters, tag: string, p: string)
    requires IsTag(u, tag) && IsContainedIn(tag, p) && !u.alphabetic('/')
    ensures IsTag(u, p)
  {
    assert forall i :: 0 <= i < |p| ==> p[i] == tag[i];
  }

  lemma ContainmentIsPartialOrder(a: string, b: string, c: string)
    ensures IsContainedIn(a, a)
    ensures IsContainedIn(a, b) && IsContainedIn(b, a) ==> a == b
    ensures IsContainedIn(a, b) && IsContainedIn(b, c) ==> IsContainedIn(a, c)
  {
    if IsContainedIn(a, b) && IsContainedIn(b, c) && |c| < |b| {
      assert a[|c|] == b[|c|];
    }
  }

  /** The containers of one tag form a chain. */
  lemma ContainersFormChain(tag: string, p: string, q: string)
    requires IsContainedIn(tag, p) && IsContainedIn(tag, q)
    ensures IsContainedIn(p, q) || IsContainedIn(q, p)
  {
    if |p| < |q| {
      assert q[..|p|] == tag[..|p|] && q[|p|] == tag[|p|];
    } else {
      assert p[..|q|] == tag[..|q|];
      assert |q| < |p| ==> p[|q|] == tag[|q|];
    }
  }

  /** Segments get longer, so each is contained in those before it. */
  lemma {:induction false} SegmentsGrow(tag: string, i: nat)
    requires i <= |tag|
    ensures forall j :: 0 <= j < |SegmentsFrom(tag, i)| ==> i <= |SegmentsFrom(tag, i)[j]|
    ensures forall j, k :: 0 <= j < k < |SegmentsFrom(tag, i)| ==>
              |SegmentsFrom(tag, i)[j]| < |SegmentsFrom(tag, i)[k]|
    decreases |tag| - i
  {
    if i < |tag| {
      SegmentsGrow(tag, i + 1);
    }
  }

  lemma SegmentsDescend(tag: string, j: nat, k: nat)
    requires j <= k < |Segments(tag)|
    ensures IsContainedIn(Segments(tag)[k], Segments(tag)[j])
  {
    var p, q := Segments(tag)[j], Segments(tag)[k];
    SegmentsGrow(tag, 0);
    ContainedIffSegment(tag, p);
    ContainedIffSegment(tag, q);
    ContainersFormChain(tag, p, q);
  }

  /** A tag followed by a slash and body characters, the underscore and the dash among them, is a tag inside it. */
  lemma SubTagIsContained(u: Letters, tag: string, leaf: string)
    requires IsTag(u, tag) && forall c <- leaf :: u.alphanumeric(c) || c == '_' || c == '-' || c == '/'
    ensures IsTag(u, tag + "/" + leaf) && IsContainedIn(tag + "/" + leaf, tag)
  {
    var all := tag + "/" + leaf;
    forall i | 2 <= i < |all| ensures IsBodyChar(u, all[i]) {
      if i > |tag| { assert all[i] == leaf[i - |tag| - 1]; }
    }
  }

  /** Nothing else continues a tag. */
  lemma OtherCharactersEndTags(u: Letters, tag: string, c: char, rest: string)
    requires IsTag(u, tag) && !u.alphanumeric(c) && c != '_' && c != '-' && c != '/'
    ensures LongestTag(u, tag + [c] + rest) == Some(|tag|) && !IsTag(u, tag + [c] + rest)
  {
    var all := tag + [c] + rest;
    assert all[|tag|] == c;
    assert forall i :: 0 <= i < |tag| ==> all[i] == tag[i];
    BodyEndIs(u, all, 2, |tag|);
  }
}
