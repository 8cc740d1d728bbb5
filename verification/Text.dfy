/**
 Characters and strings as the scanners see them. A string is a sequence of
 Unicode characters; `ByteLen` gives the UTF-8 offset that Rust would report.
 */
module Text {

  predicate IsDigit(c: char) {
    '0' <= c <= '9'
  }

  predicate IsAlpha(c: char) {
    'a' <= c <= 'z' || 'A' <= c <= 'Z'
  }

  predicate IsAscii(c: char) {
    c as int < 128
  }

  /** `is_ascii_whitespace`: space, tab, line feed, form feed, carriage return. */
  predicate IsAsciiWhitespace(c: char) {
    c as int in {9, 10, 12, 13, 32}
  }

  /** The Unicode White_Space property, which `str::trim` and `split_whitespace` use. */
  predicate IsWhitespace(c: char) {
    var n := c as int;
    9 <= n <= 13 || n == 32 || n == 0x85 || n == 0xA0 || n == 0x1680 || 0x2000 <= n <= 0x200A
    || n == 0x2028 || n == 0x2029 || n == 0x202F || n == 0x205F || n == 0x3000
  }

  // Unicode lower-casing of one character, which may be several characters.
  type Lowering = char -> string

  // ---------------------------------------------------------------- spans

  /** First position at or after `pos` whose character fails `p`. */
  function SkipWhile(s: string, pos: nat, p: char -> bool): (r: nat)
    requires pos <= |s|
    ensures pos <= r <= |s|
    decreases |s| - pos
  {
    if pos < |s| && p(s[pos]) then SkipWhile(s, pos + 1, p) else pos
  }

  lemma {:induction false} SkipWhileSpan(s: string, pos: nat, p: char -> bool)
    requires pos <= |s|
    ensures var r := SkipWhile(s, pos, p);
            (forall i :: pos <= i < r ==> p(s[i])) && (r < |s| ==> !p(s[r]))
    decreases |s| - pos
  {
    if pos < |s| && p(s[pos]) { SkipWhileSpan(s, pos + 1, p); }
  }

  lemma {:induction false} SkipWhileIs(s: string, pos: nat, p: char -> bool, r: nat)
    requires pos <= r <= |s|
    requires forall i :: pos <= i < r ==> p(s[i])
    requires r < |s| ==> !p(s[r])
    ensures SkipWhile(s, pos, p) == r
    decreases r - pos
  {
    if pos < r { SkipWhileIs(s, pos + 1, p, r); }
  }

  /** Cutting the string stops a span at the cut and changes nothing before it. */
  lemma SkipWhileCut(s: string, pos: nat, p: char -> bool, n: nat)
    requires pos <= n <= |s|
    ensures var r := SkipWhile(s, pos, p);
            SkipWhile(s[..n], pos, p) == if r <= n then r else n
  {
    var r := SkipWhile(s, pos, p);
    SkipWhileSpan(s, pos, p);
    SkipWhileIs(s[..n], pos, p, if r <= n then r else n);
  }

  // ---------------------------------------------------------------- trimming

  function TrimStart(s: string): string {
    s[SkipWhile(s, 0, IsWhitespace)..]
  }

  function TrimEnd(s: string): (r: string)
    ensures r <= s
    ensures r != [] ==> !IsWhitespace(r[|r| - 1])
    ensures forall i :: |r| <= i < |s| ==> IsWhitespace(s[i])
  {
    if s != [] && IsWhitespace(s[|s| - 1]) then TrimEnd(s[..|s| - 1]) else s
  }

  /** `str::trim`. */
  function Trim(s: string): string {
    TrimEnd(TrimStart(s))
  }

  predicate IsTrimmed(s: string) {
    s == [] || (!IsWhitespace(s[0]) && !IsWhitespace(s[|s| - 1]))
  }

  /** Trimming leaves a trimmed string, and leaves trimmed strings alone. */
  lemma TrimIsIdempotent(s: string)
    ensures IsTrimmed(Trim(s))
    ensures IsTrimmed(s) <==> Trim(s) == s
  {
    var t := TrimStart(s);
    SkipWhileSpan(s, 0, IsWhitespace);
    if t != [] { assert !IsWhitespace(t[0]); }
    if IsTrimmed(s) && s != [] {
      SkipWhileIs(s, 0, IsWhitespace, 0);
      assert t == s;
    }
  }

  /** Trimming takes only white space away, at both ends. */
  lemma TrimCuts(s: string) returns (before: string, after: string)
    ensures s == before + Trim(s) + after
    ensures forall i :: 0 <= i < |before| ==> IsWhitespace(before[i])
    ensures forall i :: 0 <= i < |after| ==> IsWhitespace(after[i])
  {
    SkipWhileSpan(s, 0, IsWhitespace);
    var t := TrimStart(s);
    before, after := s[..|s| - |t|], t[|Trim(s)|..];
  }

  // ---------------------------------------------------------------- UTF-8 offsets

  /** Bytes of a character's UTF-8 encoding. */
  function Utf8Len(c: char): (n: nat)
    ensures 1 <= n <= 4
  {
    if c as int < 0x80 then 1
    else if c as int < 0x800 then 2
    else if c as int < 0x10000 then 3
    else 4
  }

  function ByteLen(s: string): nat {
    if s == [] then 0 else ByteLen(s[..|s| - 1]) + Utf8Len(s[|s| - 1])
  }

  lemma ByteLenStep(s: string, k: nat)
    requires k < |s|
    ensures ByteLen(s[..k + 1]) == ByteLen(s[..k]) + Utf8Len(s[k])
  {
    assert s[..k + 1][..k] == s[..k];
  }

  /** Longer prefixes have larger offsets, so an offset determines its prefix. */
  lemma {:induction false} ByteLenGrows(s: string, j: nat, k: nat)
    requires j < k <= |s|
    ensures ByteLen(s[..j]) < ByteLen(s[..k])
  {
    if j + 1 < k { ByteLenGrows(s, j, k - 1); }
    ByteLenStep(s, k - 1);
  }
}
