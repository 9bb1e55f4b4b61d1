/**
  Characters, character classes and the small string operations the two log
  parsers share: the ASCII classes of Go's regexp syntax, maximal runs of a
  class, the `\s+(.+)$` tail both line patterns end with, strings.ToLower,
  strings.Contains and strings.TrimSpace.
 */
module Chars {
  import opened Wrappers

  /** The character classes the log patterns use. Go's `\w`, `\d` and `\s`
      are ASCII-only. */
  datatype Class =
    | Word        // \w      [0-9A-Za-z_]
    | Digit       // \d      [0-9]
    | Space       // \s      [\t\n\f\r ]
    | NonSpace    // \S
    | Dot         // .       anything but a newline
    | WordOrDash  // [\w-]
    | PathChar    // [/\w\-\.] under (?i), whose \w then also takes U+017F and U+212A

  /** U+017F LATIN SMALL LETTER LONG S: case-folds to 's'. */
  const LongS: char := '\U{17F}'
  /** U+212A KELVIN SIGN: case-folds and lower-cases to 'k'. */
  const KelvinSign: char := '\U{212A}'
  /** U+0130 LATIN CAPITAL LETTER I WITH DOT ABOVE: lower-cases to 'i'. */
  const CapitalIWithDot: char := '\U{130}'

  predicate IsDigit(c: char) { '0' <= c <= '9' }
  predicate IsAsciiUpper(c: char) { 'A' <= c <= 'Z' }
  predicate IsAsciiLower(c: char) { 'a' <= c <= 'z' }
  predicate IsWordChar(c: char) { IsAsciiLower(c) || IsAsciiUpper(c) || IsDigit(c) || c == '_' }
  predicate IsSpaceChar(c: char) { c == ' ' || c == '\t' || c == '\n' || c == '\r' || c == '\U{C}' }

  /** unicode.IsSpace, the test strings.TrimSpace trims by. */
  predicate IsUnicodeSpace(c: char) {
    || c == '\t' || c == '\n' || c == '\U{B}' || c == '\U{C}' || c == '\r' || c == ' '
    || c == '\U{85}' || c == '\U{A0}' || c == '\U{1680}'
    || ('\U{2000}' <= c <= '\U{200A}')
    || c == '\U{2028}' || c == '\U{2029}' || c == '\U{202F}' || c == '\U{205F}' || c == '\U{3000}'
  }

  predicate In(c: char, cls: Class) {
    match cls
    case Word => IsWordChar(c)
    case Digit => IsDigit(c)
    case Space => IsSpaceChar(c)
    case NonSpace => !IsSpaceChar(c)
    case Dot => c != '\n'
    case WordOrDash => IsWordChar(c) || c == '-'
    case PathChar => IsWordChar(c) || c == '/' || c == '-' || c == '.' || c == LongS || c == KelvinSign
  }

  /** Every character of s[lo..hi] is in the class. */
  predicate AllIn(s: string, lo: int, hi: int, cls: Class) {
    0 <= lo <= hi <= |s| && forall k {:trigger In(s[k], cls)} :: lo <= k < hi ==> In(s[k], cls)
  }

  /** The end of the maximal run of `cls` characters starting at i: what a
      greedy `cls*` consumes from there. */
  function Span(s: string, i: nat, cls: Class): (j: nat)
    requires i <= |s|
    ensures i <= j <= |s|
    decreases |s| - i
  {
    if i == |s| || !In(s[i], cls) then i else Span(s, i + 1, cls)
  }

  /** The run Span finds is all `cls` and stops at the end or at a character
      outside `cls`. */
  lemma {:induction false} LemmaSpan(s: string, i: nat, cls: Class)
    requires i <= |s|
    ensures AllIn(s, i, Span(s, i, cls), cls)
    ensures Span(s, i, cls) == |s| || !In(s[Span(s, i, cls)], cls)
    decreases |s| - i
  {
    if i < |s| && In(s[i], cls) {
      LemmaSpan(s, i + 1, cls);
    }
  }

  /** A run of `cls` that stops at the end or at a character outside `cls`
      is the maximal one: greedy quantifiers before a disjoint class have a
      single way to match. */
  lemma {:induction false} LemmaSpanStops(s: string, i: nat, j: nat, cls: Class)
    requires i <= |s|
    requires AllIn(s, i, j, cls)
    requires j == |s| || !In(s[j], cls)
    ensures Span(s, i, cls) == j
    decreases j - i
  {
    if i < j {
      LemmaSpanStops(s, i + 1, j, cls);
    }
  }

  /** A run of `cls` characters, cut out of s, is all `cls`. */
  lemma LemmaAllInSlice(s: string, lo: int, hi: int, cls: Class)
    requires AllIn(s, lo, hi, cls)
    ensures AllIn(s[lo..hi], 0, hi - lo, cls)
  {
    forall k | 0 <= k < hi - lo ensures In(s[lo..hi][k], cls) {
      assert s[lo..hi][k] == s[lo + k];
      assert In(s[lo + k], cls);
    }
  }

  /** `\s+(.+)$` matches from lo with the group starting at k. */
  predicate IsSpacesThenRest(s: string, lo: int, k: int) {
    0 <= lo < k < |s| && AllIn(s, lo, k, Space) && AllIn(s, k, |s|, Dot)
  }

  /** Where the `(.+)` group of `\s+(.+)$` starts when matched from lo, if it
      matches: greedy `\s+` keeps all the white space it can, and gives back
      one character only when nothing else would be left for `.+`. */
  function SpacesThenRest(s: string, lo: nat): (r: Option<nat>)
    requires lo <= |s|
    ensures r.Some? ==> IsSpacesThenRest(s, lo, r.value)
    ensures r.Some? ==> forall k :: IsSpacesThenRest(s, lo, k) ==> k <= r.value
    ensures r.None? ==> forall k :: !IsSpacesThenRest(s, lo, k)
  {
    var e := Span(s, lo, Space);
    LemmaSpan(s, lo, Space);
    var k := if e < |s| then e else |s| - 1;
    if lo < k && Span(s, k, Dot) == |s| then
      LemmaSpan(s, k, Dot);
      Some(k)
    else
      assert lo < k ==> (LemmaSpan(s, k, Dot); !AllIn(s, k, |s|, Dot));
      assert forall k' :: IsSpacesThenRest(s, lo, k') ==> k' <= k && AllIn(s, k, |s|, Dot);
      None
  }

  /** Whenever `\s+(.+)$` matches from lo, SpacesThenRest finds a match,
      with the group starting no earlier. */
  lemma LemmaSpacesThenRestFound(s: string, lo: nat, k: nat)
    requires IsSpacesThenRest(s, lo, k)
    ensures SpacesThenRest(s, lo).Some? && k <= SpacesThenRest(s, lo).value
  {
  }

  /** Go's `\d{2}:\d{2}:\d{2}` at position i. */
  predicate IsClockAt(s: string, i: int) {
    && 0 <= i && i + 8 <= |s|
    && IsDigit(s[i]) && IsDigit(s[i + 1]) && s[i + 2] == ':'
    && IsDigit(s[i + 3]) && IsDigit(s[i + 4]) && s[i + 5] == ':'
    && IsDigit(s[i + 6]) && IsDigit(s[i + 7])
  }

  /** Concatenation regroups: stated once so that long concatenations need
      not be compared character by character. */
  lemma LemmaAppendAssoc(a: string, b: string, c: string)
    ensures a + b + c == a + (b + c)
  {
  }

  /** pat occurs in s at position i. */
  predicate Occurs(s: string, i: int, pat: string) {
    0 <= i && i + |pat| <= |s| && s[i..i + |pat|] == pat
  }

  /** pat[k..] occurs in s at position i + k, compared one character at a time. */
  function HasAtFrom(s: string, i: nat, pat: string, k: nat): (b: bool)
    requires k <= |pat|
    ensures b <==> i + |pat| <= |s| && s[i + k..i + |pat|] == pat[k..]
    decreases |pat| - k
  {
    if k == |pat| then i + k <= |s|
    else i + k < |s| && s[i + k] == pat[k] && HasAtFrom(s, i, pat, k + 1)
  }

  function HasAt(s: string, i: nat, pat: string): (b: bool)
    ensures b <==> Occurs(s, i, pat)
  {
    HasAtFrom(s, i, pat, 0)
  }

  /** The first position at or after `from` where pat occurs. */
  function IndexOf(s: string, pat: string, from: nat): (r: Option<nat>)
    ensures r.Some? ==> from <= r.value && Occurs(s, r.value, pat)
    ensures r.Some? ==> forall i :: from <= i < r.value ==> !Occurs(s, i, pat)
    ensures r.None? ==> forall i :: from <= i ==> !Occurs(s, i, pat)
    decreases |s| - from
  {
    if from + |pat| > |s| then None
    else if HasAt(s, from, pat) then Some(from)
    else IndexOf(s, pat, from + 1)
  }

  /** strings.Contains. */
  function Contains(s: string, pat: string): (b: bool)
    ensures b <==> exists i :: Occurs(s, i, pat)
  {
    var r := IndexOf(s, pat, 0);
    assert r.Some? ==> Occurs(s, r.value, pat);
    r.Some?
  }

  /** An occurrence inside a piece of s is an occurrence in s. */
  lemma LemmaContainsInfix(s: string, lo: nat, hi: nat, pat: string)
    requires lo <= hi <= |s|
    requires Contains(s[lo..hi], pat)
    ensures Contains(s, pat)
  {
    var i: int :| Occurs(s[lo..hi], i, pat);
    forall k | 0 <= k < |pat|
      ensures s[lo + i + k] == pat[k]
    {
      assert s[lo..hi][i..i + |pat|][k] == pat[k];
    }
    assert s[lo + i..lo + i + |pat|] == pat;
    assert Occurs(s, lo + i, pat);
  }

  /** c matches the lower-case pattern character k under (?i). Go compares by
      simple case folding, so 's' also matches U+017F and 'k' also U+212A. */
  predicate FoldsTo(c: char, k: char) {
    || c == k
    || (IsAsciiLower(k) && c as int == k as int - 32)
    || (k == 's' && c == LongS)
    || (k == 'k' && c == KelvinSign)
  }

  /** The lower-case pattern pat matches s at i under (?i). */
  predicate FoldOccurs(s: string, i: int, pat: string) {
    0 <= i && i + |pat| <= |s| && forall k :: 0 <= k < |pat| ==> FoldsTo(s[i + k], pat[k])
  }

  function FoldHasAtFrom(s: string, i: nat, pat: string, k: nat): (b: bool)
    requires k <= |pat|
    ensures b <==> i + |pat| <= |s| && forall j :: k <= j < |pat| ==> FoldsTo(s[i + j], pat[j])
    decreases |pat| - k
  {
    if k == |pat| then i + k <= |s|
    else i + k < |s| && FoldsTo(s[i + k], pat[k]) && FoldHasAtFrom(s, i, pat, k + 1)
  }

  function FoldHasAt(s: string, i: nat, pat: string): (b: bool)
    ensures b <==> FoldOccurs(s, i, pat)
  {
    FoldHasAtFrom(s, i, pat, 0)
  }

  /** unicode.ToLower, for the characters whose lower case is ASCII; every
      other non-ASCII character is kept, which cannot change whether an
      ASCII keyword occurs. */
  function LowerChar(c: char): char {
    if IsAsciiUpper(c) then (c as int + 32) as char
    else if c == CapitalIWithDot then 'i'
    else if c == KelvinSign then 'k'
    else c
  }

  /** strings.ToLower: character by character. */
  function ToLower(s: string): (r: string)
    ensures |r| == |s|
    ensures forall k {:trigger r[k]} :: 0 <= k < |s| ==> r[k] == LowerChar(s[k])
    decreases |s|
  {
    if s == [] then [] else [LowerChar(s[0])] + ToLower(s[1..])
  }

  /** Lower-casing a piece of s gives the same piece of the lower-cased s. */
  lemma LemmaToLowerSlice(s: string, lo: nat, hi: nat)
    requires lo <= hi <= |s|
    ensures ToLower(s[lo..hi]) == ToLower(s)[lo..hi]
  {
    var piece := ToLower(s[lo..hi]);
    forall k | 0 <= k < hi - lo ensures piece[k] == ToLower(s)[lo..hi][k] {
      assert s[lo..hi][k] == s[lo + k];
    }
  }

  /** A word in the lower-cased piece of s is a word in the lower-cased s. */
  lemma LemmaContainsLowerInfix(s: string, lo: nat, hi: nat, pat: string)
    requires lo <= hi <= |s|
    requires Contains(ToLower(s[lo..hi]), pat)
    ensures Contains(ToLower(s), pat)
  {
    LemmaToLowerSlice(s, lo, hi);
    LemmaContainsInfix(ToLower(s), lo, hi, pat);
  }

  /** pat, a lower-case word, is spelled at position i of s once each
      character there is lower-cased. */
  predicate LowerOccurs(s: string, i: int, pat: string) {
    && 0 <= i && i + |pat| <= |s|
    && forall k :: 0 <= k < |pat| ==> LowerChar(s[i + k]) == pat[k]
  }

  lemma LemmaOccursLower(s: string, i: int, pat: string)
    ensures Occurs(ToLower(s), i, pat) <==> LowerOccurs(s, i, pat)
  {
    if 0 <= i && i + |pat| <= |s| {
      var piece := ToLower(s)[i..i + |pat|];
      assert forall k :: 0 <= k < |pat| ==> piece[k] == LowerChar(s[i + k]);
      if LowerOccurs(s, i, pat) {
        assert piece == pat;
      }
    }
  }

  /** Searching the lower-cased string for a lower-case word finds it exactly
      when some position of the original spells it, character by character,
      once lower-cased. */
  lemma LemmaContainsLower(s: string, pat: string)
    ensures Contains(ToLower(s), pat) <==> exists i :: LowerOccurs(s, i, pat)
  {
    forall i ensures Occurs(ToLower(s), i, pat) <==> LowerOccurs(s, i, pat) {
      LemmaOccursLower(s, i, pat);
    }
  }

  /** The end of the run of white space that starts at i. */
  function SpaceRunEnd(s: string, i: nat): (j: nat)
    requires i <= |s|
    ensures i <= j <= |s|
    ensures forall k :: i <= k < j ==> IsUnicodeSpace(s[k])
    ensures j == |s| || !IsUnicodeSpace(s[j])
    decreases |s| - i
  {
    if i < |s| && IsUnicodeSpace(s[i]) then SpaceRunEnd(s, i + 1) else i
  }

  /** The start of the run of white space that ends at j, not looking
      before lo. */
  function SpaceRunStart(s: string, lo: nat, j: nat): (i: nat)
    requires lo <= j <= |s|
    ensures lo <= i <= j
    ensures forall k :: i <= k < j ==> IsUnicodeSpace(s[k])
    ensures i == lo || !IsUnicodeSpace(s[i - 1])
    decreases j - lo
  {
    if lo < j && IsUnicodeSpace(s[j - 1]) then SpaceRunStart(s, lo, j - 1) else j
  }

  /** strings.TrimSpace: neither end of the result is white space. */
  function TrimSpace(s: string): (r: string)
    ensures r == [] || (!IsUnicodeSpace(r[0]) && !IsUnicodeSpace(r[|r| - 1]))
  {
    var lo := SpaceRunEnd(s, 0);
    var hi := SpaceRunStart(s, lo, |s|);
    s[lo..hi]
  }

  /** What strings.TrimSpace removes is white space: s is a run of white
      space, then the result, then another run of white space. */
  lemma LemmaTrimSpaceInfix(s: string)
    ensures exists lo, hi :: && 0 <= lo <= hi <= |s| && TrimSpace(s) == s[lo..hi]
                             && (forall k :: 0 <= k < lo ==> IsUnicodeSpace(s[k]))
                             && (forall k :: hi <= k < |s| ==> IsUnicodeSpace(s[k]))
  {
    var lo := SpaceRunEnd(s, 0);
    var hi := SpaceRunStart(s, lo, |s|);
    assert TrimSpace(s) == s[lo..hi];
  }
}
