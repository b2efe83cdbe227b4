/** The line rules of the fallback grammar, identical in
    word_form_filler_doc.py, word_form_filler.py and test_parser.py. */
module FallbackRules {
  import opened Strings
  import opened Patterns

  /** `^\d+\.`: a numbered line, which opens a record. */
  predicate IsNumberedLine(s: string) {
    OrdinalEnd(s).Some?
  }

  /** `答案\s*:\s*\([A-D]\)` matched at `i`: half-width colon and
      parentheses, ASCII letter. */
  predicate HalfWidthChoiceAt(s: string, i: nat)
    requires i <= |s|
  {
    match LabelEnd(s, i, AnswerWord, HalfWidthColon)
    case None => false
    case Some(m) => m + 2 < |s| && s[m] == '(' && IsChoice(s[m + 1]) && s[m + 2] == ')'
  }

  /** An answer line: the half-width answer pattern occurs anywhere. */
  predicate IsAnswerLine(s: string) {
    exists i :: 0 <= i < |s| && HalfWidthChoiceAt(s, i)
  }

  /** An explanation line: `解析\s*:` occurs anywhere. */
  predicate IsExplanationLine(s: string) {
    exists i :: 0 <= i < |s| && ExplanationAt(s, i)
  }

  /** `解析\s*:` matched at `i`. */
  predicate ExplanationAt(s: string, i: nat)
    requires i <= |s|
  {
    HasAt(s, i, ExplanationWord)
    && var k := SkipSpaces(s, i + |ExplanationWord|); k < |s| && s[k] == ':'
  }

  /** A line is numbered exactly when it starts with one or more digits
      followed by a period; what comes after the period does not matter. */
  lemma NumberedLineIff(s: string)
    ensures IsNumberedLine(s) <==>
            exists d :: 0 < d < |s| && s[d] == '.' && forall k :: 0 <= k < d ==> IsDigit(s[k])
  {
    if exists d :: 0 < d < |s| && s[d] == '.' && forall k :: 0 <= k < d ==> IsDigit(s[k]) {
      var d :| 0 < d < |s| && s[d] == '.' && forall k :: 0 <= k < d ==> IsDigit(s[k]);
      assert !IsDigit(s[d]);
      SkipDigitsExact(s, 0, d);
    }
    if IsNumberedLine(s) {
      var d := SkipDigits(s, 0);
      assert 0 < d < |s| && s[d] == '.';
    }
  }

  /** Only the half-width form is an answer line here: `答案:(B)` is one,
      `答案：(B)` is not. */
  lemma HalfWidthOnly()
    ensures IsAnswerLine("答案:(B)")
    ensures !IsAnswerLine("答案：(B)")
  {
    var s := "答案:(B)";
    assert SkipSpaces(s, 2) == 2 && SkipSpaces(s, 3) == 3;
    assert HalfWidthChoiceAt(s, 0);
    var t := "答案：(B)";
    forall i | 0 <= i < |t| ensures !HalfWidthChoiceAt(t, i) {
      if i == 0 {
        assert SkipSpaces(t, 2) == 2;
      } else {
        assert t[i] != '答';
      }
    }
  }
}
