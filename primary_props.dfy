/** What the primary parser promises about the records it returns, for each
    copy: one record per answer line, in order, numbered from `1.`, with
    the answer cleaned as the copy cleans it and the explanation gathered
    from the lines up to the next answer line. */
module PrimaryProps {
  import opened Strings
  import opened Lines
  import opened PrimarySpec
  import DocRules
  import PlainRules

  /** The canonical lines copy `v` of the parser sees in `text`: the
      stripped, non-blank lines, tagged under its grammar. */
  function LinesOf(v: Variant, text: string): seq<Line>
  {
    Canonical(Tagger(Primary(v)), SplitLines(text))
  }

  /** The parse of copy `v` is the reference reading of its canonical
      lines. */
  lemma ParseIsReference(v: Variant, text: string)
    ensures Parse(v, text) == Reference(RulesOf(v), LinesOf(v, text))
  {
    RulesOfWellFormed(v);
    ParseWithIsReference(RulesOf(v), text);
  }

  /** The records of the first `n` positions, one per position. */
  lemma {:induction false} EntriesAt(r: Rules, ls: seq<Line>, bs: seq<nat>, n: nat)
    requires n < |bs| && Bounds(bs, |ls|)
    ensures |Entries(r, ls, bs, n)| == n
    ensures forall k :: 0 <= k < n ==> Entries(r, ls, bs, n)[k] == Entry(r, ls, k, bs[k], bs[k + 1])
  {
    if n > 0 {
      EntriesAt(r, ls, bs, n - 1);
    }
  }

  /** The reference has one record per answer line; the `k`-th runs from
      its answer line to the end of its segment. */
  lemma ReferenceAt(r: Rules, ls: seq<Line>)
    ensures var ps := Openers(ls);
            |Reference(r, ls)| == |ps|
            && forall k :: 0 <= k < |ps| ==>
                 ps[k] < SegmentEnd(ps, k, |ls|) <= |ls|
                 && Reference(r, ls)[k] == Entry(r, ls, k, ps[k], SegmentEnd(ps, k, |ls|))
  {
    var ps := Openers(ls);
    var bs := ps + [|ls|];
    OpenersBounded(ls);
    EntriesAt(r, ls, bs, |ps|);
    forall k | 0 <= k < |ps|
      ensures ps[k] < SegmentEnd(ps, k, |ls|) <= |ls|
      ensures Reference(r, ls)[k] == Entry(r, ls, k, ps[k], SegmentEnd(ps, k, |ls|))
    {
      SegmentHasNoOpener(ls, k);
      assert bs[k] == ps[k] && bs[k + 1] == SegmentEnd(ps, k, |ls|);
    }
  }

  /** The records of copy `v`: the `k`-th is labelled `k+1.`, carries the
      `k`-th answer line cleaned as `v` cleans it, and the explanation of
      the lines after that answer line and before the next one. */
  lemma ParseRecords(v: Variant, text: string)
    ensures var ls := LinesOf(v, text);
            var ps := Openers(ls);
            var qs := Parse(v, text);
            |qs| == |ps|
            && forall k :: 0 <= k < |ps| ==>
                 ps[k] < SegmentEnd(ps, k, |ls|) <= |ls|
                 && qs[k] == Record(Label(k + 1), CleanFor(v, ls[ps[k]].text),
                                    Explanation(ls, ps[k] + 1, SegmentEnd(ps, k, |ls|)))
  {
    var ls := LinesOf(v, text);
    ParseIsReference(v, text);
    ReferenceAt(RulesOf(v), ls);
  }

  /** Every canonical line is a stripped, non-blank line of the text; it
      opens a record exactly when it is an answer line of copy `v`, and is
      an explanation line of the record exactly when it is an explanation
      line and no answer line. An explanation line starts the explanation
      with the line after its leading label under the legacy-document copy,
      and with the whole line under the plain copy. */
  lemma LinesOfClassified(v: Variant, text: string)
    ensures var ls := LinesOf(v, text);
            forall i :: 0 <= i < |ls| ==>
              && ls[i].text != "" && Strip(ls[i].text) == ls[i].text
              && (ls[i].kind == Opener <==> IsAnswerLine(v, ls[i].text))
              && (ls[i].kind == Marker <==> !IsAnswerLine(v, ls[i].text) && IsExplanationLine(v, ls[i].text))
              && (ls[i].kind == Marker ==>
                    ls[i].note == (if v == Doc then DocRules.ExplanationText(ls[i].text) else ls[i].text))
  {
    var tag := Tagger(Primary(v));
    var ls := LinesOf(v, text);
    CanonicalTagged(tag, SplitLines(text));
    forall i | 0 <= i < |ls|
      ensures ls[i].kind == Opener <==> IsAnswerLine(v, ls[i].text)
      ensures ls[i].kind == Marker <==> !IsAnswerLine(v, ls[i].text) && IsExplanationLine(v, ls[i].text)
      ensures ls[i].kind == Marker ==>
                ls[i].note == (if v == Doc then DocRules.ExplanationText(ls[i].text) else ls[i].text)
    {
      assert ls[i] == Tag(Primary(v), ls[i].text);
    }
  }

  /** Every answer line opens a record: the records are exactly one per
      answer line. */
  lemma EveryAnswerLineOpens(v: Variant, text: string)
    ensures var ls := LinesOf(v, text);
            forall i :: 0 <= i < |ls| ==> (IsAnswerLine(v, ls[i].text) <==> i in Openers(ls))
  {
    var ls := LinesOf(v, text);
    LinesOfClassified(v, text);
    OpenersUpToComplete(ls, |ls|);
    forall i | 0 <= i < |ls| && i in Openers(ls) ensures IsAnswerLine(v, ls[i].text) {
      var k :| 0 <= k < |Openers(ls)| && Openers(ls)[k] == i;
    }
  }

  /** Records are numbered `1.`, `2.`, … in order. */
  lemma ParseLabels(v: Variant, text: string)
    ensures var qs := Parse(v, text); forall k :: 0 <= k < |qs| ==> qs[k].question == Label(k + 1)
  {
    ParseRecords(v, text);
  }

  /** No two records share a label. */
  lemma ParseLabelsDistinct(v: Variant, text: string)
    ensures var qs := Parse(v, text); forall j, k :: 0 <= j < k < |qs| ==> qs[j].question != qs[k].question
  {
    ParseLabels(v, text);
    NumberedDistinct(Parse(v, text));
  }

  /** Records numbered `1.`, `2.`, … in order have distinct labels. */
  lemma NumberedDistinct(qs: seq<Record>)
    requires forall k :: 0 <= k < |qs| ==> qs[k].question == Label(k + 1)
    ensures forall j, k :: 0 <= j < k < |qs| ==> qs[j].question != qs[k].question
  {
    forall j, k | 0 <= j < k < |qs| ensures qs[j].question != qs[k].question {
      if qs[j].question == qs[k].question {
        LabelInjective(j + 1, k + 1);
      }
    }
  }

  /** The legacy-document copy cleans every answer: it has no leading or
      trailing whitespace. */
  lemma DocAnswersTrimmed(text: string)
    ensures var ls := LinesOf(Doc, text);
            var ps := Openers(ls);
            var qs := Parse(Doc, text);
            |qs| == |ps|
            && forall k :: 0 <= k < |qs| ==>
                 qs[k].answer == DocRules.CleanAnswer(ls[ps[k]].text)
                 && (qs[k].answer == [] || (!IsSpace(qs[k].answer[0]) && !IsSpace(qs[k].answer[|qs[k].answer| - 1])))
  {
    ParseRecords(Doc, text);
  }

  /** The plain copy keeps each answer line of the text whole (stripped),
      label included. */
  lemma PlainAnswersWhole(text: string)
    ensures var qs := Parse(Plain, text);
            forall k :: 0 <= k < |qs| ==>
              StrippedLineOf(SplitLines(text), qs[k].answer)
              && PlainRules.IsAnswerLine(qs[k].answer) && |qs[k].answer| > 2 && qs[k].answer[..2] == "答案"
  {
    var ls := LinesOf(Plain, text);
    var ps := Openers(ls);
    var qs := Parse(Plain, text);
    ParseRecords(Plain, text);
    LinesOfClassified(Plain, text);
    CanonicalFromRaws(Tagger(Primary(Plain)), SplitLines(text));
    forall k | 0 <= k < |qs|
      ensures StrippedLineOf(SplitLines(text), qs[k].answer)
      ensures PlainRules.IsAnswerLine(qs[k].answer) && |qs[k].answer| > 2 && qs[k].answer[..2] == "答案"
    {
      assert qs[k].answer == ls[ps[k]].text;
      PlainRules.AnswerLineStartsWithLabel(qs[k].answer);
    }
  }

  /** Text that is whitespace only yields no records. */
  lemma BlankTextNoRecords(v: Variant, text: string)
    requires AllSpace(text)
    ensures Parse(v, text) == []
  {
    BlankTextHasNoLines(Tagger(Primary(v)), text);
    ParseRecords(v, text);
  }

  /** Text without an answer line yields no records, whatever explanation
      lines it holds. */
  lemma NoAnswerLineNoRecords(v: Variant, text: string)
    requires var ls := LinesOf(v, text); forall i :: 0 <= i < |ls| ==> !IsAnswerLine(v, ls[i].text)
    ensures Parse(v, text) == []
  {
    ParseIsReference(v, text);
    ReferenceAt(RulesOf(v), LinesOf(v, text));
    EveryAnswerLineOpens(v, text);
  }
}
