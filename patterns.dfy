/** The building blocks of the answer-key regular expressions, written as
    deterministic scanners. Every `\s*` and `\d+` in those expressions is
    followed by a character outside its class, so the greedy scan below finds
    a match exactly when the regular expression does. */
module Patterns {
  import opened Strings

  datatype Option<T> = None | Some(value: T)

  const AnswerWord: string := "答案"
  const ExplanationWord: string := "解析"

  /** The colons `[：:]` and the half-width colon alone. */
  const AnyColon: set<char> := {'：', ':'}
  const HalfWidthColon: set<char> := {':'}

  predicate IsOpenParen(c: char) { c == '（' || c == '(' }
  predicate IsCloseParen(c: char) { c == '）' || c == ')' }

  /** `[A-D]`: an ASCII choice letter. */
  predicate IsChoice(c: char) { 'A' <= c <= 'D' }

  /** Greedy `\d*` from `i`. */
  function SkipDigits(s: string, i: nat): (j: nat)
    requires i <= |s|
    ensures i <= j <= |s|
    ensures forall k :: i <= k < j ==> IsDigit(s[k])
    ensures j == |s| || !IsDigit(s[j])
    decreases |s| - i
  {
    if i < |s| && IsDigit(s[i]) then SkipDigits(s, i + 1) else i
  }

  /** A greedy scan stops exactly at the end of the run it was given. */
  lemma SkipDigitsExact(s: string, i: nat, j: nat)
    requires i <= j <= |s|
    requires forall k :: i <= k < j ==> IsDigit(s[k])
    requires j == |s| || !IsDigit(s[j])
    ensures SkipDigits(s, i) == j
  {
  }

  /** A whitespace run between `pre` and a non-whitespace character is
      skipped exactly. */
  lemma SkipSpacesOver(pre: string, ws: string, post: string)
    requires AllSpace(ws)
    requires post == [] || !IsSpace(post[0])
    ensures SkipSpaces(pre + ws + post, |pre|) == |pre| + |ws|
  {
    var s := pre + ws + post;
    forall k | |pre| <= k < |pre| + |ws| ensures IsSpace(s[k]) {
      assert s[k] == ws[k - |pre|];
    }
    if post != [] { assert s[|pre| + |ws|] == post[0]; }
    SkipSpacesExact(s, |pre|, |pre| + |ws|);
  }

  /** Whether `s` holds the word `w` at index `i`. */
  predicate HasAt(s: string, i: nat, w: string) {
    i + |w| <= |s| && s[i..i + |w|] == w
  }

  /** `w\s*[colons]\s*` matched at `i`: the index just past the match. */
  function LabelEnd(s: string, i: nat, w: string, colons: set<char>): (r: Option<nat>)
    requires i <= |s|
    ensures r.Some? ==> HasAt(s, i, w) && i + |w| < r.value <= |s|
  {
    if HasAt(s, i, w) then
      var k := SkipSpaces(s, i + |w|);
      if k < |s| && s[k] in colons then Some(SkipSpaces(s, k + 1)) else None
    else None
  }

  /** `^\d+\.`: the index just past the period. */
  function OrdinalEnd(s: string): (r: Option<nat>)
    ensures r.Some? ==> 2 <= r.value <= |s| && s[r.value - 1] == '.'
  {
    var d := SkipDigits(s, 0);
    if 0 < d < |s| && s[d] == '.' then Some(d + 1) else None
  }
}
