/** The line rules of the plain filler (word_form_filler.py), repeated
    verbatim in test_parser.py. */
module PlainRules {
  import opened Strings
  import opened Patterns

  /** `^答案\s*[：:]\s*[（(]`: the line starts with the answer label and an
      opening parenthesis of either width. */
  predicate IsAnswerLine(s: string) {
    match LabelEnd(s, 0, AnswerWord, AnyColon)
    case None => false
    case Some(j) => j < |s| && IsOpenParen(s[j])
  }

  /** The explanation label this variant accepts: full-width colon only. */
  const ExplanationLabel: string := "解析："

  /** An explanation line: the line starts with `解析` and a full-width
      colon, with nothing between them. */
  predicate IsExplanationLine(s: string) {
    HasAt(s, 0, ExplanationLabel)
  }

  /** An answer line of this variant always begins with the answer word. */
  lemma AnswerLineStartsWithLabel(s: string)
    requires IsAnswerLine(s)
    ensures |s| > 2 && s[..2] == AnswerWord
  {
  }

  /** Both the full-width `答案：（Ｃ）` and the half-width `答案:(C)` are
      answer lines, and so is the spaced `答案 : (A)`. */
  lemma BothWidthsRecognised()
    ensures IsAnswerLine("答案：（Ｃ）")
    ensures IsAnswerLine("答案:(C)")
    ensures IsAnswerLine("答案 : (A)")
  {
    var s := "答案：（Ｃ）";
    assert SkipSpaces(s, 2) == 2 && SkipSpaces(s, 3) == 3;
    var t := "答案:(C)";
    assert SkipSpaces(t, 2) == 2 && SkipSpaces(t, 3) == 3;
    var u := "答案 : (A)";
    assert SkipSpaces(u, 3) == 3 && SkipSpaces(u, 2) == 3;
    assert SkipSpaces(u, 5) == 5 && SkipSpaces(u, 4) == 5;
  }
}
