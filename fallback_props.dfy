/** What the fallback parser promises about the records it returns: one
    record per numbered line, in order, keeping that whole line as its
    question, the last answer line after it as its answer and the
    explanation gathered from the lines up to the next numbered line. */
module FallbackProps {
  import opened Strings
  import opened Lines
  import opened FallbackSpec
  import FallbackRules

  /** The canonical lines the fallback parser sees in `text`: the
      stripped, non-blank lines, tagged under the fallback grammar. */
  function LinesOf(text: string): seq<Line>
  {
    Canonical(Tagger(Fallback), SplitLines(text))
  }

  /** The fallback grammar keeps each line's text, and an explanation line
      starts the explanation with the whole line. */
  lemma TaggerIsFallbackTagging()
    ensures FallbackTagging(Tagger(Fallback))
  {
    var tag := Tagger(Fallback);
    forall t ensures tag(t).kind == Marker ==> tag(t).note == t {
      assert tag(t) == Tag(Fallback, t);
    }
  }

  /** The fallback parse is the reference reading of its canonical lines. */
  lemma ParseIsReference(text: string)
    ensures Parse(text) == Reference(LinesOf(text))
  {
    TaggerIsFallbackTagging();
    ParseWithIsReference(Tagger(Fallback), text);
  }

  /** The reference has one record per numbered line; the `k`-th runs from
      its numbered line to the end of its segment. */
  lemma ReferenceAt(ls: seq<Line>)
    ensures var ps := Openers(ls);
            |Reference(ls)| == |ps|
            && forall k :: 0 <= k < |ps| ==>
                 ps[k] < SegmentEnd(ps, k, |ls|) <= |ls|
                 && Reference(ls)[k] == Entry(ls, ps[k], SegmentEnd(ps, k, |ls|))
  {
    var ps := Openers(ls);
    var bs := ps + [|ls|];
    OpenersBounded(ls);
    EntriesAt(ls, bs, |ps|);
    forall k | 0 <= k < |ps|
      ensures ps[k] < SegmentEnd(ps, k, |ls|) <= |ls|
      ensures Reference(ls)[k] == Entry(ls, ps[k], SegmentEnd(ps, k, |ls|))
    {
      SegmentHasNoOpener(ls, k);
      assert bs[k] == ps[k] && bs[k + 1] == SegmentEnd(ps, k, |ls|);
    }
  }

  /** The records of the fallback parser: the `k`-th keeps the `k`-th
      numbered line whole, the last answer line after it and the
      explanation of the lines after it and before the next numbered
      line. */
  lemma ParseRecords(text: string)
    ensures var ls := LinesOf(text);
            var ps := Openers(ls);
            var qs := Parse(text);
            |qs| == |ps|
            && forall k :: 0 <= k < |ps| ==>
                 var e := SegmentEnd(ps, k, |ls|);
                 ps[k] < e <= |ls|
                 && qs[k] == Record(ls[ps[k]].text, LastAnswer(ls, ps[k] + 1, e), Explanation(ls, ps[k] + 1, e))
  {
    ParseIsReference(text);
    ReferenceAt(LinesOf(text));
  }

  /** Every canonical line is a stripped, non-blank line of the text. It
      opens a record exactly when it is numbered; it is an answer line of
      the record exactly when it is an answer line and not numbered; it is
      an explanation line exactly when it is neither of those and holds an
      explanation label, and then it starts the explanation whole. */
  lemma LinesOfClassified(text: string)
    ensures var ls := LinesOf(text);
            forall i :: 0 <= i < |ls| ==>
              var t := ls[i].text;
              && t != "" && Strip(t) == t
              && (ls[i].kind == Opener <==> FallbackRules.IsNumberedLine(t))
              && (ls[i].kind == AnswerLine <==> !FallbackRules.IsNumberedLine(t) && FallbackRules.IsAnswerLine(t))
              && (ls[i].kind == Marker <==>
                    !FallbackRules.IsNumberedLine(t) && !FallbackRules.IsAnswerLine(t) && FallbackRules.IsExplanationLine(t))
              && (ls[i].kind == Marker ==> ls[i].note == t)
  {
    var tag := Tagger(Fallback);
    var ls := LinesOf(text);
    CanonicalTagged(tag, SplitLines(text));
    forall i | 0 <= i < |ls|
      ensures ls[i] == Tag(Fallback, ls[i].text)
    {
      assert ls[i] == tag(ls[i].text);
    }
  }

  /** Every numbered line opens a record: the records are exactly one per
      numbered line. */
  lemma EveryNumberedLineOpens(text: string)
    ensures var ls := LinesOf(text);
            forall i :: 0 <= i < |ls| ==> (FallbackRules.IsNumberedLine(ls[i].text) <==> i in Openers(ls))
  {
    var ls := LinesOf(text);
    LinesOfClassified(text);
    OpenersUpToComplete(ls, |ls|);
    forall i | 0 <= i < |ls| && i in Openers(ls) ensures FallbackRules.IsNumberedLine(ls[i].text) {
      var k :| 0 <= k < |Openers(ls)| && Openers(ls)[k] == i;
    }
  }

  /** Each question is a whole numbered line of the text, stripped. */
  lemma QuestionsAreNumberedLines(text: string)
    ensures var qs := Parse(text);
            forall k :: 0 <= k < |qs| ==>
              StrippedLineOf(SplitLines(text), qs[k].question)
              && FallbackRules.IsNumberedLine(qs[k].question) && Strip(qs[k].question) == qs[k].question
  {
    var ls := LinesOf(text);
    var ps := Openers(ls);
    var qs := Parse(text);
    ParseRecords(text);
    LinesOfClassified(text);
    CanonicalFromRaws(Tagger(Fallback), SplitLines(text));
    forall k | 0 <= k < |qs|
      ensures StrippedLineOf(SplitLines(text), qs[k].question)
      ensures FallbackRules.IsNumberedLine(qs[k].question) && Strip(qs[k].question) == qs[k].question
    {
      assert qs[k].question == ls[ps[k]].text;
    }
  }

  /** What the records need of the line tags: an answer line passes the
      answer-line test, and an explanation line passes the
      explanation-line test and starts the explanation whole. */
  lemma LineKinds(text: string)
    ensures var ls := LinesOf(text);
            forall i :: 0 <= i < |ls| ==>
              && (ls[i].kind == AnswerLine ==> FallbackRules.IsAnswerLine(ls[i].text))
              && (ls[i].kind == Marker ==> ls[i].note == ls[i].text && FallbackRules.IsExplanationLine(ls[i].text))
  {
    LinesOfClassified(text);
  }

  /** Each answer is empty or a whole answer line of the text, stripped. */
  lemma AnswersAreAnswerLines(text: string)
    ensures var qs := Parse(text);
            forall k :: 0 <= k < |qs| ==>
              qs[k].answer == ""
              || (StrippedLineOf(SplitLines(text), qs[k].answer) && FallbackRules.IsAnswerLine(qs[k].answer))
  {
    var ls := LinesOf(text);
    var ps := Openers(ls);
    var qs := Parse(text);
    ParseRecords(text);
    LineKinds(text);
    CanonicalFromRaws(Tagger(Fallback), SplitLines(text));
    forall k | 0 <= k < |qs|
      ensures qs[k].answer == ""
              || (StrippedLineOf(SplitLines(text), qs[k].answer) && FallbackRules.IsAnswerLine(qs[k].answer))
    {
      var e := SegmentEnd(ps, k, |ls|);
      assert qs[k] == Record(ls[ps[k]].text, LastAnswer(ls, ps[k] + 1, e), Explanation(ls, ps[k] + 1, e));
      LastAnswerIsLast(ls, ps[k] + 1, e);
    }
  }

  /** Each explanation is empty or starts with a whole explanation line of
      the text, stripped. */
  lemma ExplanationsStartWithLabel(text: string)
    ensures var qs := Parse(text);
            forall k :: 0 <= k < |qs| ==>
              qs[k].explanation == ""
              || exists t :: StrippedLineOf(SplitLines(text), t) && FallbackRules.IsExplanationLine(t)
                             && t <= qs[k].explanation
  {
    var ls := LinesOf(text);
    var ps := Openers(ls);
    var qs := Parse(text);
    ParseRecords(text);
    LineKinds(text);
    CanonicalFromRaws(Tagger(Fallback), SplitLines(text));
    forall k | 0 <= k < |qs|
      ensures qs[k].explanation == ""
              || exists t :: StrippedLineOf(SplitLines(text), t) && FallbackRules.IsExplanationLine(t)
                             && t <= qs[k].explanation
    {
      var e := SegmentEnd(ps, k, |ls|);
      assert qs[k] == Record(ls[ps[k]].text, LastAnswer(ls, ps[k] + 1, e), Explanation(ls, ps[k] + 1, e));
      ExplanationStartsWithLine(ls, ps[k] + 1, e);
      if qs[k].explanation != "" {
        var j :| ps[k] + 1 <= j < e && ls[j].kind == Marker && FallbackRules.IsExplanationLine(ls[j].text)
                 && ls[j].text <= qs[k].explanation;
        assert StrippedLineOf(SplitLines(text), ls[j].text);
      }
    }
  }

  /** An explanation gathered from lines whose explanation lines start it
      whole is empty or starts with one of those explanation lines. */
  lemma ExplanationStartsWithLine(ls: seq<Line>, lo: nat, hi: nat)
    requires lo <= hi <= |ls|
    requires forall i :: lo <= i < hi && ls[i].kind == Marker ==>
               ls[i].note == ls[i].text && FallbackRules.IsExplanationLine(ls[i].text)
    ensures var x := Explanation(ls, lo, hi);
            x == "" || exists j :: lo <= j < hi && ls[j].kind == Marker && FallbackRules.IsExplanationLine(ls[j].text)
                                   && ls[j].text <= x
  {
    ExplanationStartsWithNote(ls, lo, hi);
  }

  /** Text that is whitespace only yields no records. */
  lemma BlankTextNoRecords(text: string)
    requires AllSpace(text)
    ensures Parse(text) == []
  {
    BlankTextHasNoLines(Tagger(Fallback), text);
    ParseRecords(text);
  }

  /** Text without a numbered line yields no records, whatever answer and
      explanation lines it holds. */
  lemma NoNumberedLineNoRecords(text: string)
    requires var ls := LinesOf(text); forall i :: 0 <= i < |ls| ==> !FallbackRules.IsNumberedLine(ls[i].text)
    ensures Parse(text) == []
  {
    ParseIsReference(text);
    ReferenceAt(LinesOf(text));
    EveryNumberedLineOpens(text);
  }
}
