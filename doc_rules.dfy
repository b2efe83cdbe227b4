/** The line rules of the legacy-document variant of the filler
    (word_form_filler_doc.py): which lines are answer lines and explanation
    lines, how an answer is cleaned, and the font-glyph substitution applied
    to every cell written. */
module DocRules {
  import opened Strings
  import opened Patterns

  /** `^\d+\.\s*答案\s*[：:]`: an ordinal, then the answer label. */
  predicate NumberedAnswerLabel(s: string) {
    match OrdinalEnd(s)
    case None => false
    case Some(j) => LabelEnd(s, SkipSpaces(s, j), AnswerWord, AnyColon).Some?
  }

  /** `答案\s*[：:]\s*[（(]?[A-D]` matched at `i`. */
  predicate ChoiceAt(s: string, i: nat)
    requires i <= |s|
  {
    match LabelEnd(s, i, AnswerWord, AnyColon)
    case None => false
    case Some(j) =>
      var k := if j < |s| && IsOpenParen(s[j]) then j + 1 else j;
      k < |s| && IsChoice(s[k])
  }

  /** `答案\s*[：:]\s*[（(]?\d+[）)]?[（(]?[A-D]` matched at `i`: a
      multi-part answer such as `答案：(1)(A)`. */
  predicate IndexedChoiceAt(s: string, i: nat)
    requires i <= |s|
  {
    match LabelEnd(s, i, AnswerWord, AnyColon)
    case None => false
    case Some(j) =>
      var a := if j < |s| && IsOpenParen(s[j]) then j + 1 else j;
      var d := SkipDigits(s, a);
      var b := if d < |s| && IsCloseParen(s[d]) then d + 1 else d;
      var c := if b < |s| && IsOpenParen(s[b]) then b + 1 else b;
      a < d && c < |s| && IsChoice(s[c])
  }

  /** An answer line: any of the three answer patterns matches. */
  predicate IsAnswerLine(s: string) {
    NumberedAnswerLabel(s)
    || (exists i :: 0 <= i < |s| && ChoiceAt(s, i))
    || (exists i :: 0 <= i < |s| && IndexedChoiceAt(s, i))
  }

  /** An explanation line: `解析\s*[：:]` occurs anywhere in it. */
  predicate IsExplanationLine(s: string) {
    exists i :: 0 <= i < |s| && LabelEnd(s, i, ExplanationWord, AnyColon).Some?
  }

  /** The explanation text of an explanation line: a leading
      `解析\s*[：:]\s*` is removed; a label elsewhere in the line stays.
      What it leaves for a labelled line is stated by
      `ExplanationTextOfLabelled`. */
  function ExplanationText(s: string): (r: string)
    ensures |r| <= |s| && r == s[|s| - |r|..]
    ensures LabelEnd(s, 0, ExplanationWord, AnyColon).None? ==> r == s
    ensures r != [] && LabelEnd(s, 0, ExplanationWord, AnyColon).Some? ==> !IsSpace(r[0])
  {
    match LabelEnd(s, 0, ExplanationWord, AnyColon)
    case Some(j) => s[j..]
    case None => s
  }

  /** Removes a leading ordinal (digits and a period) and the whitespace
      after it; an answer that does not start with one is kept. */
  function DropOrdinal(answer: string): (r: string)
    ensures |r| <= |answer| && r == answer[|answer| - |r|..]
    ensures OrdinalEnd(answer).None? ==> r == answer
  {
    match OrdinalEnd(answer)
    case Some(j) => answer[SkipSpaces(answer, j)..]
    case None => answer
  }

  /** Removes a leading answer label, its colon of either width and the
      whitespace around the colon; an answer that does not start with one
      is kept. */
  function DropAnswerLabel(answer: string): (r: string)
    ensures |r| <= |answer| && r == answer[|answer| - |r|..]
    ensures LabelEnd(answer, 0, AnswerWord, AnyColon).None? ==> r == answer
  {
    match LabelEnd(answer, 0, AnswerWord, AnyColon)
    case Some(j) => answer[j..]
    case None => answer
  }

  /** `_clean_answer`: drop a leading ordinal, then a leading answer label,
      then strip. */
  function CleanAnswer(answer: string): (r: string)
    ensures |r| <= |answer|
    ensures r == [] || (!IsSpace(r[0]) && !IsSpace(r[|r| - 1]))
  {
    Strip(DropAnswerLabel(DropOrdinal(answer)))
  }

  /** A numbered answer line `<digits>.<ws>答案<ws><colon><ws>X` cleans to
      `X` with its trailing whitespace stripped. */
  lemma CleanNumberedAnswer(digits: string, ws1: string, ws2: string, colon: char, ws3: string, x: string)
    requires digits != [] && forall i :: 0 <= i < |digits| ==> IsDigit(digits[i])
    requires AllSpace(ws1) && AllSpace(ws2) && AllSpace(ws3)
    requires colon in AnyColon
    requires x == [] || !IsSpace(x[0])
    ensures CleanAnswer(digits + "." + ws1 + AnswerWord + ws2 + [colon] + ws3 + x) == Strip(x)
  {
    var rest := AnswerWord + ws2 + [colon] + ws3 + x;
    assert digits + "." + ws1 + AnswerWord + ws2 + [colon] + ws3 + x == digits + "." + ws1 + rest;
    DropNumberedOrdinal(digits, ws1, rest);
    DropLabelledAnswer(ws2, colon, ws3, x);
  }

  /** An answer line without an ordinal, `答案<ws><colon><ws>X`, cleans to
      `X` with its trailing whitespace stripped: `答案：(Ｃ)` gives `(Ｃ)`. */
  lemma CleanPlainAnswer(ws2: string, colon: char, ws3: string, x: string)
    requires AllSpace(ws2) && AllSpace(ws3)
    requires colon in AnyColon
    requires x == [] || !IsSpace(x[0])
    ensures CleanAnswer(AnswerWord + ws2 + [colon] + ws3 + x) == Strip(x)
  {
    var s := AnswerWord + ws2 + [colon] + ws3 + x;
    assert s[0] == '答' && !IsDigit(s[0]);
    assert SkipDigits(s, 0) == 0;
    DropLabelledAnswer(ws2, colon, ws3, x);
  }

  /** A leading explanation label, its colon and the whitespace around the
      colon are cut away: `解析<ws><colon><ws>X` leaves exactly `X`. */
  lemma ExplanationTextOfLabelled(ws1: string, colon: char, ws2: string, x: string)
    requires AllSpace(ws1) && AllSpace(ws2)
    requires colon in AnyColon
    requires x == [] || !IsSpace(x[0])
    ensures ExplanationText(ExplanationWord + ws1 + [colon] + ws2 + x) == x
  {
    var s := ExplanationWord + ws1 + [colon] + ws2 + x;
    LabelEndAfterColon(ExplanationWord, ws1, colon, ws2 + x);
    assert s == ExplanationWord + ws1 + [colon] + (ws2 + x);
    SkipSpacesOver(ExplanationWord + ws1 + [colon], ws2, x);
    assert s[|ws1| + 3 + |ws2|..] == x;
  }

  lemma DropNumberedOrdinal(digits: string, ws1: string, rest: string)
    requires digits != [] && forall i :: 0 <= i < |digits| ==> IsDigit(digits[i])
    requires AllSpace(ws1)
    requires rest != [] && !IsSpace(rest[0])
    ensures DropOrdinal(digits + "." + ws1 + rest) == rest
  {
    var s := digits + "." + ws1 + rest;
    assert s == digits + ("." + ws1 + rest);
    OrdinalOf(digits, "." + ws1 + rest);
    assert s == (digits + ".") + ws1 + rest;
    SkipSpacesOver(digits + ".", ws1, rest);
  }

  lemma DropLabelledAnswer(ws2: string, colon: char, ws3: string, x: string)
    requires AllSpace(ws2) && AllSpace(ws3)
    requires colon in AnyColon
    requires x == [] || !IsSpace(x[0])
    ensures DropAnswerLabel(AnswerWord + ws2 + [colon] + ws3 + x) == x
  {
    var rest := AnswerWord + ws2 + [colon] + ws3 + x;
    LabelEndAfterColon(AnswerWord, ws2, colon, ws3 + x);
    assert rest == AnswerWord + ws2 + [colon] + (ws3 + x);
    SkipSpacesOver(AnswerWord + ws2 + [colon], ws3, x);
    assert rest[|ws2| + 3 + |ws3|..] == x;
  }

  /** An answer or explanation label ends after the colon and the
      whitespace that follows it. */
  lemma LabelEndAfterColon(w: string, ws2: string, colon: char, tail: string)
    requires w == AnswerWord || w == ExplanationWord
    requires AllSpace(ws2) && colon in AnyColon
    ensures var rest := w + ws2 + [colon] + tail;
            LabelEnd(rest, 0, w, AnyColon) == Some(SkipSpaces(rest, |ws2| + 3))
  {
    var rest := w + ws2 + [colon] + tail;
    assert rest == w + ws2 + ([colon] + tail);
    assert !IsSpace(colon);
    SkipSpacesOver(w, ws2, [colon] + tail);
    assert rest[|ws2| + 2] == colon;
    assert rest[..2] == w;
  }

  /** A run of digits followed by a period is an ordinal. */
  lemma OrdinalOf(digits: string, rest: string)
    requires digits != [] && forall i :: 0 <= i < |digits| ==> IsDigit(digits[i])
    requires rest != [] && rest[0] == '.'
    ensures OrdinalEnd(digits + rest) == Some(|digits| + 1)
  {
    var s := digits + rest;
    assert s[|digits|] == '.';
    SkipDigitsExact(s, 0, |digits|);
  }

  /** `_process_wingdings_text`: every `à`, which the Wingdings font renders
      as an arrow, becomes `→`; every other character is kept. */
  function ProcessWingdings(text: string): (r: string)
    ensures |r| == |text|
    ensures forall i :: 0 <= i < |r| ==> r[i] != 'à'
    ensures forall i :: 0 <= i < |text| ==> r[i] == (if text[i] == 'à' then '→' else text[i])
  {
    if text == [] then []
    else [if text[0] == 'à' then '→' else text[0]] + ProcessWingdings(text[1..])
  }

  /** Applying the substitution twice is the same as applying it once. */
  lemma ProcessWingdingsIdempotent(text: string)
    ensures ProcessWingdings(ProcessWingdings(text)) == ProcessWingdings(text)
  {
  }

  /** Text without `à` passes through unchanged. */
  lemma ProcessWingdingsKeepsPlainText(text: string)
    requires 'à' !in text
    ensures ProcessWingdings(text) == text
  {
  }

  /** The line `答案：（Ｃ）` (full-width parentheses and letter, no leading
      ordinal) is not an answer line for this variant, while `答案：(C)` is. */
  lemma FullWidthChoiceNotRecognised()
    ensures !IsAnswerLine("答案：（Ｃ）")
    ensures IsAnswerLine("答案：(C)")
  {
    var s := "答案：（Ｃ）";
    assert OrdinalEnd(s).None? by { assert !IsDigit(s[0]); }
    forall i | 0 <= i < |s| ensures !ChoiceAt(s, i) && !IndexedChoiceAt(s, i) {
      if i == 0 {
        assert SkipSpaces(s, 2) == 2;
        assert SkipSpaces(s, 3) == 3;
        assert LabelEnd(s, 0, AnswerWord, AnyColon) == Some(3);
        assert SkipDigits(s, 4) == 4;
      } else {
        assert !HasAt(s, i, AnswerWord);
      }
    }
    var t := "答案：(C)";
    assert SkipSpaces(t, 2) == 2;
    assert SkipSpaces(t, 3) == 3;
    assert LabelEnd(t, 0, AnswerWord, AnyColon) == Some(3);
    assert ChoiceAt(t, 0);
  }
}
