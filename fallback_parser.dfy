/** The loop of the fallback answer-key parser (`_parse_with_fallback` in
    word_form_filler_doc.py and word_form_filler.py, `parse_with_fallback`
    in test_parser.py), proved against `FallbackSpec.ParseWith`. The
    copies' line tests are the tagging `tag`; `FallbackSpec.Parse` fixes it
    to the fallback grammar. */
module FallbackParser {
  import opened Strings
  import opened Lines
  import opened FallbackSpec

  /** `_parse_with_fallback`: one pass over the lines of the text. */
  method ParseFallback(tag: string -> Line, text: string) returns (questions: seq<Record>)
    requires KeepsText(tag)
    ensures questions == ParseWith(tag, text)
  {
    var lines := SplitLines(text);
    var question := "";
    var answer := "";
    var explanation := "";
    questions := [];
    var i := 0;
    while i < |lines|
      invariant 0 <= i <= |lines|
      invariant State(question, answer, explanation, questions) == FoldAll(CanonicalUpTo(tag, lines, i))
    {
      question, answer, explanation, questions := TakeLine(tag, lines[i], question, answer, explanation, questions);
      CanonicalStep(tag, lines, i);
      i := i + 1;
    }
    assert i == |lines|;
    if question != "" {
      questions := questions + [Record(question, answer, explanation)];
    }
  }

  /** The body of the parser's loop: the line is stripped and skipped when
      blank; otherwise the numbered-line test, then the answer-line test,
      then the explanation-line test, then the continuation test. */
  method TakeLine(tag: string -> Line, raw: string, question: string, answer: string, explanation: string, questions: seq<Record>)
    returns (question': string, answer': string, explanation': string, questions': seq<Record>)
    requires KeepsText(tag)
    ensures State(question', answer', explanation', questions')
         == Step(tag, State(question, answer, explanation, questions), raw)
  {
    question', answer', explanation', questions' := question, answer, explanation, questions;
    var line := Strip(raw);
    if line == "" {
      return;
    }
    var l := TagLine(tag, line);
    if l.kind == Opener {
      if question != "" {
        questions' := questions + [Record(question, answer, explanation)];
      }
      question' := line;
      answer' := "";
      explanation' := "";
    } else if l.kind == AnswerLine && question != "" {
      answer' := line;
    } else if l.kind == Marker && question != "" {
      explanation' := line;
    } else if explanation != "" && question != "" {
      explanation' := explanation + " " + line;
    }
  }
}
