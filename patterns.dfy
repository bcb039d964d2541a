/**
 * The regular expressions `parse_products` searches with, each written out
 * as a scanner over the string, and `re.search`: the match that starts
 * leftmost, with Python's greedy choice of the group where several are
 * possible.
 */
module Patterns {
  import opened Wrappers
  import opened Text

  /** The five patterns, each with the group the scraper reads. */
  datatype Regex =
    | RatingPattern              // ([2-5]\.[0-9]), group 1
    | ParenCount                 // \((\d[, \d]*)\), group 1
    | CountBefore(word: string)  // (\d[, \d]*)\s*Word with re.IGNORECASE, group 1; `word` in lower case
    | DigitCommaRun              // [\d,]+, the whole match

  /** The character class `[, \d]`. */
  predicate InCountRun(c: char) {
    c == ',' || c == ' ' || IsDigit(c)
  }

  /** The character class `[\d,]`. */
  predicate DigitOrComma(c: char) {
    c == ',' || IsDigit(c)
  }

  /** The end of the longest run of `cls` characters starting at `j`. */
  function RunEnd(s: string, j: nat, cls: char -> bool): (e: nat)
    requires j <= |s|
    ensures j <= e <= |s|
    ensures forall m :: j <= m < e ==> cls(s[m])
    ensures e == |s| || !cls(s[e])
    decreases |s| - j
  {
    if j < |s| && cls(s[j]) then RunEnd(s, j + 1, cls) else j
  }

  function UpperChar(c: char): char {
    if 'a' <= c <= 'z' then (c as int - 32) as char else c
  }

  /**
   * Whether text character `c` matches the lower-case pattern letter `w`
   * under `re.IGNORECASE`: its two ASCII cases, plus the non-ASCII letters
   * Python's Unicode matching folds onto `i` (U+0130, U+0131), `s` (U+017F)
   * and `k` (U+212A).
   */
  predicate FoldsTo(c: char, w: char) {
    c == w || c == UpperChar(w)
    || (w == 'i' && (c == '\U{130}' || c == '\U{131}'))
    || (w == 's' && c == '\U{17F}')
    || (w == 'k' && c == '\U{212A}')
  }

  /** `s[f..]` starts with `w`, ignoring case. */
  predicate MatchesIgnoreCase(s: string, f: nat, w: string) {
    f + |w| <= |s| && forall k :: 0 <= k < |w| ==> FoldsTo(s[f + k], w[k])
  }

  /** The group the pattern captures when its match starts at index `i`. */
  function MatchAt(re: Regex, s: string, i: nat): Option<string>
    requires i <= |s|
  {
    match re
    case RatingPattern =>
      if i + 3 <= |s| && '2' <= s[i] <= '5' && s[i + 1] == '.' && '0' <= s[i + 2] <= '9'
      then Some(s[i..i + 3]) else None
    case ParenCount =>
      if i + 2 <= |s| && s[i] == '(' && IsDigit(s[i + 1]) then
        var e := RunEnd(s, i + 2, InCountRun);
        if e < |s| && s[e] == ')' then Some(s[i + 1..e]) else None
      else None
    case CountBefore(w) =>
      if i < |s| && IsDigit(s[i]) then
        var e := RunEnd(s, i + 1, InCountRun);
        var f := RunEnd(s, e, IsSpace);
        if MatchesIgnoreCase(s, f, w) then Some(s[i..e]) else None
      else None
    case DigitCommaRun =>
      if i < |s| && DigitOrComma(s[i]) then Some(s[i..RunEnd(s, i, DigitOrComma)]) else None
  }

  /** The leftmost match starting at or after `i`. */
  function SearchFrom(re: Regex, s: string, i: nat): (r: Option<string>)
    requires i <= |s|
    ensures r.None? <==> forall k :: i <= k <= |s| ==> MatchAt(re, s, k).None?
    ensures r.Some? ==> exists j :: i <= j <= |s| && MatchAt(re, s, j) == r
                                  && forall k :: i <= k < j ==> MatchAt(re, s, k).None?
    decreases |s| - i
  {
    match MatchAt(re, s, i)
    case Some(g) => Some(g)
    case None => if i == |s| then None else SearchFrom(re, s, i + 1)
  }

  /** `re.search(pattern, s)`: the group of the leftmost match, if any. */
  function Search(re: Regex, s: string): (r: Option<string>)
    ensures r.None? <==> forall k :: 0 <= k <= |s| ==> MatchAt(re, s, k).None?
    ensures r.Some? ==> exists j :: 0 <= j <= |s| && MatchAt(re, s, j) == r
                                  && forall k :: 0 <= k < j ==> MatchAt(re, s, k).None?
  {
    SearchFrom(re, s, 0)
  }

  // ----- what each scanner matches, stated as the regular expression does -----

  /**
   * `\((\d[, \d]*)\)` matches from `i` to `e` inclusive, capturing
   * `s[i + 1..e]`.
   */
  ghost predicate ParenMatch(s: string, i: nat, e: nat) {
    && i + 1 < e < |s|
    && s[i] == '(' && IsDigit(s[i + 1])
    && (forall m :: i + 1 < m < e ==> InCountRun(s[m]))
    && s[e] == ')'
  }

  /** The `ParenCount` scanner finds exactly the matches of its pattern. */
  lemma ParenCountSound(s: string, i: nat)
    requires i <= |s|
    ensures forall e: nat :: ParenMatch(s, i, e) ==> MatchAt(ParenCount, s, i) == Some(s[i + 1..e])
    ensures MatchAt(ParenCount, s, i).Some? ==>
      exists e: nat :: ParenMatch(s, i, e) && MatchAt(ParenCount, s, i) == Some(s[i + 1..e])
  {
    forall e: nat | ParenMatch(s, i, e) ensures MatchAt(ParenCount, s, i) == Some(s[i + 1..e]) {
      var e0 := RunEnd(s, i + 2, InCountRun);
    }
    if MatchAt(ParenCount, s, i).Some? {
      var e0 := RunEnd(s, i + 2, InCountRun);
      assert ParenMatch(s, i, e0);
    }
  }

  /**
   * `(\d[, \d]*)\s*word` matches from `i`, the group ending at `e` and the
   * word starting at `f`.
   */
  ghost predicate CountMatch(s: string, i: nat, e: nat, f: nat, w: string) {
    && i < e <= f && f + |w| <= |s|
    && IsDigit(s[i])
    && (forall m :: i < m < e ==> InCountRun(s[m]))
    && (forall m :: e <= m < f ==> IsSpace(s[m]))
    && MatchesIgnoreCase(s, f, w)
  }

  /** A word of lower-case ASCII letters, as `Ratings` and `Reviews` are. */
  predicate LetterWord(w: string) {
    |w| > 0 && forall k :: 0 <= k < |w| ==> 'a' <= w[k] <= 'z'
  }

  /** No character that folds onto a letter is whitespace, a digit or a comma. */
  lemma FoldedLetterIsNotSeparator(c: char, w: char)
    requires 'a' <= w <= 'z' && FoldsTo(c, w)
    ensures !IsSpace(c) && !InCountRun(c)
  {
  }

  /**
   * The `CountBefore` scanner finds a match exactly when the pattern has
   * one at `i`, and its group is the longest any match there can capture:
   * the group Python's greedy `[, \d]*` yields.
   */
  lemma CountBeforeSound(s: string, i: nat, w: string)
    requires i <= |s| && LetterWord(w)
    ensures (exists e: nat, f: nat :: CountMatch(s, i, e, f, w)) ==> MatchAt(CountBefore(w), s, i).Some?
    ensures MatchAt(CountBefore(w), s, i).Some? ==>
      exists e: nat, f: nat :: && CountMatch(s, i, e, f, w)
                     && MatchAt(CountBefore(w), s, i) == Some(s[i..e])
                     && forall e': nat, f': nat :: CountMatch(s, i, e', f', w) ==> e' <= e
  {
    if i < |s| {
      var e0 := RunEnd(s, i + 1, InCountRun);
      var f0 := RunEnd(s, e0, IsSpace);
      forall e: nat, f: nat | CountMatch(s, i, e, f, w) ensures e <= e0 && f == f0 {
        FoldedLetterIsNotSeparator(s[f], w[0]);
      }
      if MatchAt(CountBefore(w), s, i).Some? {
        assert CountMatch(s, i, e0, f0, w);
      }
    }
  }

  /** The run of `cls` characters from `j` ends at the first index from `j` outside `cls`. */
  lemma RunEndAt(s: string, j: nat, e: nat, cls: char -> bool)
    requires j <= e <= |s|
    requires forall m :: j <= m < e ==> cls(s[m])
    requires e == |s| || !cls(s[e])
    ensures RunEnd(s, j, cls) == e
  {
  }

  /** `re.search(r'\((\d[, \d]*)\)', '(' + g + ')')` captures `g` for a digit-led count `g`. */
  lemma ParenCountOf(g: string)
    requires |g| > 0 && IsDigit(g[0]) && forall k :: 0 <= k < |g| ==> InCountRun(g[k])
    ensures Search(ParenCount, "(" + g + ")") == Some(g)
  {
    var s := "(" + g + ")";
    assert forall m :: 1 <= m < |g| + 1 ==> s[m] == g[m - 1];
    RunEndAt(s, 2, |g| + 1, InCountRun);
    assert s[1..|g| + 1] == g;
  }

  /**
   * A digit-led count `g` directly followed by text `u` that starts with
   * the word `w` in any case: the search captures exactly `g`.
   */
  lemma CountBeforeOf(g: string, u: string, w: string)
    requires |g| > 0 && IsDigit(g[0]) && forall k :: 0 <= k < |g| ==> InCountRun(g[k])
    requires LetterWord(w) && MatchesIgnoreCase(u, 0, w)
    ensures Search(CountBefore(w), g + u) == Some(g)
  {
    var s := g + u;
    FoldedLetterIsNotSeparator(u[0], w[0]);
    assert forall m :: 0 <= m < |g| ==> s[m] == g[m];
    assert s[|g|] == u[0];
    RunEndAt(s, 1, |g|, InCountRun);
    RunEndAt(s, |g|, |g|, IsSpace);
    assert MatchesIgnoreCase(s, |g|, w) by {
      forall k | 0 <= k < |w| ensures s[|g| + k] == u[k] {
      }
    }
    assert s[0..|g|] == g;
  }

  /**
   * The `DigitCommaRun` scanner returns the longest run of digits and
   * commas that starts at `i`.
   */
  lemma DigitCommaRunSound(s: string, i: nat)
    requires i <= |s|
    ensures MatchAt(DigitCommaRun, s, i).Some? <==> i < |s| && DigitOrComma(s[i])
    ensures MatchAt(DigitCommaRun, s, i).Some? ==>
      var g := MatchAt(DigitCommaRun, s, i).value;
      && |g| >= 1 && g == s[i..i + |g|]
      && (forall k :: 0 <= k < |g| ==> DigitOrComma(g[k]))
      && (i + |g| == |s| || !DigitOrComma(s[i + |g|]))
  {
  }
}
