/** The loop of the primary answer-key parser, in both of its copies
    (word_form_filler_doc.py and word_form_filler.py, the latter repeated in
    test_parser.py), proved against `PrimarySpec.ParseWith`. The copies'
    answer and explanation tests are the tagging of `rules`
    (`Lines.Classify`, tried in the parser's order); `PrimarySpec.RulesOf`
    gives each copy's rules. */
module PrimaryParser {
  import opened Strings
  import opened Lines
  import opened PrimarySpec

  /** `_parse_questions_from_text`: one pass over the lines of the text. */
  method ParseQuestions(rules: Rules, text: string) returns (questions: seq<Record>)
    requires KeepsText(rules.tag)
    ensures questions == ParseWith(rules, text)
  {
    var lines := SplitLines(text);
    var num: nat := 1;
    var answer := "";
    var explanation := "";
    questions := [];
    var i := 0;
    while i < |lines|
      invariant 0 <= i <= |lines|
      invariant State(num, answer, explanation, questions) == FoldAll(rules, CanonicalUpTo(rules.tag, lines, i))
    {
      num, answer, explanation, questions := TakeLine(rules, lines[i], num, answer, explanation, questions);
      CanonicalStep(rules, lines, i);
      i := i + 1;
    }
    assert i == |lines|;
    if answer != "" {
      questions := questions + [Emit(rules, num, answer, explanation)];
    }
  }

  /** The body of the parser's loop: the line is stripped and skipped when
      blank; otherwise the answer-line test, then the explanation-line test,
      then the continuation test. */
  method TakeLine(rules: Rules, raw: string, num: nat, answer: string, explanation: string, questions: seq<Record>)
    returns (num': nat, answer': string, explanation': string, questions': seq<Record>)
    requires KeepsText(rules.tag)
    ensures State(num', answer', explanation', questions')
         == Step(rules, State(num, answer, explanation, questions), raw)
  {
    num', answer', explanation', questions' := num, answer, explanation, questions;
    var line := Strip(raw);
    if line == "" {
      return;
    }
    var l := TagLine(rules, line);
    if l.kind == Opener {
      if answer != "" {
        questions' := questions + [Emit(rules, num, answer, explanation)];
        num' := num + 1;
      }
      answer' := line;
      explanation' := "";
    } else if l.kind == Marker && answer != "" {
      explanation' := l.note;
    } else if explanation != "" && answer != "" {
      explanation' := explanation + " " + line;
    }
  }
}
