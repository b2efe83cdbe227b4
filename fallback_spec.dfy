/** The fallback answer-key parser, identical in word_form_filler_doc.py,
    word_form_filler.py and test_parser.py: a record opens at every
    numbered line and keeps that whole line as its question, the last
    answer line inside it as its answer and the explanation its lines
    accumulate. The line tests are those of `tag`; `FallbackProps` fixes
    them to the fallback grammar. */
module FallbackSpec {
  import opened Strings
  import opened Lines

  /** The parser's variables between lines: the opening line of the open
      record (`""` while none is open), its answer line and its explanation
      so far (`""` for none), and the records already emitted. */
  datatype State = State(question: string, answer: string, explanation: string, questions: seq<Record>)

  const Start: State := State("", "", "", [])

  /** Tagging as the fallback grammar does it: the text is kept, and an
      explanation line starts the explanation with the whole line. */
  ghost predicate FallbackTagging(tag: string -> Line)
  {
    KeepsText(tag) && forall t :: tag(t).kind == Marker ==> tag(t).note == t
  }

  /** A stripped line tagged by `tag`. */
  function TagLine(tag: string -> Line, line: string): Line
  {
    tag(line)
  }

  /** The effect of one stripped, non-blank line. A numbered line closes
      the open record, if any, and opens a new one; inside a record an
      answer line replaces the answer, an explanation line replaces the
      explanation and any other line is appended to a non-empty
      explanation after one space; outside a record nothing changes. */
  function StepLine(st: State, l: Line): State
  {
    match l.kind
    case Opener =>
      var done := if st.question != "" then st.questions + [Record(st.question, st.answer, st.explanation)] else st.questions;
      State(l.text, "", "", done)
    case AnswerLine =>
      if st.question != "" then st.(answer := l.text) else st
    case Marker =>
      if st.question != "" then st.(explanation := l.text) else st
    case Other =>
      if st.explanation != "" && st.question != "" then st.(explanation := st.explanation + " " + l.text) else st
  }

  /** The effect of one raw line: it is stripped, and skipped when blank. */
  function Step(tag: string -> Line, st: State, raw: string): State
  {
    var line := Strip(raw);
    if line == "" then st else StepLine(st, TagLine(tag, line))
  }

  /** The state after the first `m` canonical lines: the step folded over them. */
  function Fold(ls: seq<Line>, m: nat): State
    requires m <= |ls|
  {
    if m == 0 then Start else StepLine(Fold(ls, m - 1), ls[m - 1])
  }

  /** The state after all the canonical lines. */
  function FoldAll(ls: seq<Line>): State
  {
    Fold(ls, |ls|)
  }

  /** The records once the lines are exhausted: the open record, if any, is
      emitted last. */
  function Finish(st: State): seq<Record>
  {
    if st.question != "" then st.questions + [Record(st.question, st.answer, st.explanation)] else st.questions
  }

  /** The records the parser returns for `text` when `tag` tags its lines. */
  function ParseWith(tag: string -> Line, text: string): seq<Record>
  {
    Finish(FoldAll(Canonical(tag, SplitLines(text))))
  }

  /** What `_parse_with_fallback` returns for `text`. */
  function Parse(text: string): seq<Record>
  {
    ParseWith(Tagger(Fallback), text)
  }


  // The reference reading of the parser: one record per numbered line.

  /** The text of the last answer line among `ls[lo..hi]`, or `""`. */
  function LastAnswer(ls: seq<Line>, lo: nat, hi: nat): (a: string)
    requires lo <= hi <= |ls|
    ensures a == "" || exists j :: lo <= j < hi && ls[j].kind == AnswerLine && ls[j].text == a
    decreases hi - lo
  {
    if hi == lo then ""
    else if ls[hi - 1].kind == AnswerLine then ls[hi - 1].text
    else LastAnswer(ls, lo, hi - 1)
  }

  /** A later answer line overrides an earlier one: with no answer line in
      `ls[lo..hi]` the answer is empty, and otherwise it is the text of an
      answer line that no other answer line follows. When answer lines are
      never empty, the answer is empty exactly when there is none. */
  lemma {:induction false} LastAnswerIsLast(ls: seq<Line>, lo: nat, hi: nat)
    requires lo <= hi <= |ls|
    ensures (forall j :: lo <= j < hi ==> ls[j].kind != AnswerLine) ==> LastAnswer(ls, lo, hi) == ""
    ensures (exists j :: lo <= j < hi && ls[j].kind == AnswerLine) ==>
              exists j :: lo <= j < hi && ls[j].kind == AnswerLine && LastAnswer(ls, lo, hi) == ls[j].text
                          && forall k :: j < k < hi ==> ls[k].kind != AnswerLine
    ensures (forall j :: lo <= j < hi && ls[j].kind == AnswerLine ==> ls[j].text != "") ==>
              (LastAnswer(ls, lo, hi) == "" <==> forall j :: lo <= j < hi ==> ls[j].kind != AnswerLine)
    decreases hi - lo
  {
    if hi > lo {
      LastAnswerIsLast(ls, lo, hi - 1);
      if ls[hi - 1].kind == AnswerLine {
        assert LastAnswer(ls, lo, hi) == ls[hi - 1].text;
      } else {
        assert LastAnswer(ls, lo, hi) == LastAnswer(ls, lo, hi - 1);
        if exists j :: lo <= j < hi && ls[j].kind == AnswerLine {
          var j :| lo <= j < hi && ls[j].kind == AnswerLine;
          assert j < hi - 1;
        }
      }
    }
  }

  /** The record of the numbered line at `p`, whose lines run up to line
      `e`: the numbered line, the last answer line and the explanation. */
  function Entry(ls: seq<Line>, p: nat, e: nat): Record
    requires p < e <= |ls|
  {
    Record(ls[p].text, LastAnswer(ls, p + 1, e), Explanation(ls, p + 1, e))
  }

  /** The records of the first `n` numbered lines at positions `bs`, each
      running up to the next position. */
  function Entries(ls: seq<Line>, bs: seq<nat>, n: nat): seq<Record>
    requires n < |bs| && Bounds(bs, |ls|)
  {
    if n == 0 then [] else Entries(ls, bs, n - 1) + [Entry(ls, bs[n - 1], bs[n])]
  }

  /** One record per numbered line, in order; lines before the first
      numbered line are ignored. */
  function Reference(ls: seq<Line>): seq<Record>
  {
    var ps := Openers(ls);
    OpenersBounded(ls);
    Entries(ls, ps + [|ls|], |ps|)
  }

  /** The state after `m` canonical lines as the reference describes it:
      before the first numbered line the start state; after it, the last
      numbered line so far is open with the answer and the explanation of
      the lines after it, and the records of the earlier numbered lines are
      emitted. */
  function Expected(ls: seq<Line>, m: nat): State
    requires m <= |ls|
  {
    var ps := OpenersUpTo(ls, m);
    if |ps| == 0 then Start
    else Open(ls, ps[|ps| - 1], m, Entries(ls, ps, |ps| - 1))
  }

  /** The state while the numbered line at `p` is open and `m` lines are
      read: its answer and explanation come from the lines after it. */
  function Open(ls: seq<Line>, p: nat, m: nat, done: seq<Record>): State
    requires p < m <= |ls|
  {
    State(ls[p].text, LastAnswer(ls, p + 1, m), Explanation(ls, p + 1, m), done)
  }

  /** Lines as the fallback grammar tags them: numbered lines are never
      blank and an explanation line starts the explanation with itself. */
  ghost predicate FallbackLines(ls: seq<Line>)
  {
    forall i :: 0 <= i < |ls| ==> (ls[i].kind == Opener ==> ls[i].text != "") && (ls[i].kind == Marker ==> ls[i].note == ls[i].text)
  }

  /** Folding the parser's step over canonical lines yields the state the
      reference describes. */
  lemma {:induction false} FoldExpected(ls: seq<Line>, m: nat)
    requires m <= |ls| && FallbackLines(ls)
    ensures Fold(ls, m) == Expected(ls, m)
  {
    if m > 0 {
      FoldExpected(ls, m - 1);
      StepExpected(ls, m - 1);
    }
  }

  /** One canonical line takes the described state to the next one. */
  lemma StepExpected(ls: seq<Line>, m: nat)
    requires m < |ls| && FallbackLines(ls)
    ensures StepLine(Expected(ls, m), ls[m]) == Expected(ls, m + 1)
  {
    if ls[m].kind != Opener {
      InnerLineStep(ls, m);
    } else if |OpenersUpTo(ls, m)| == 0 {
      FirstOpenerStep(ls, m);
    } else {
      NextOpenerStep(ls, m);
    }
  }

  /** The first numbered line opens the first record. */
  lemma FirstOpenerStep(ls: seq<Line>, m: nat)
    requires m < |ls| && ls[m].kind == Opener && |OpenersUpTo(ls, m)| == 0
    ensures StepLine(Expected(ls, m), ls[m]) == Expected(ls, m + 1)
  {
    assert OpenersUpTo(ls, m + 1) == [m];
    ExplanationEmpty(ls, m + 1);
  }

  /** A later numbered line emits the open record as the reference has it
      and opens the next one. */
  lemma NextOpenerStep(ls: seq<Line>, m: nat)
    requires m < |ls| && FallbackLines(ls) && ls[m].kind == Opener && |OpenersUpTo(ls, m)| > 0
    ensures StepLine(Expected(ls, m), ls[m]) == Expected(ls, m + 1)
  {
    var ps := OpenersUpTo(ls, m);
    assert OpenersUpTo(ls, m + 1) == ps + [m];
    OpenersUpToBounded(ls, m);
    EntriesExtend(ls, ps, m);
    ExplanationEmpty(ls, m + 1);
  }

  /** Closing the last record at a new position adds its entry. */
  lemma EntriesExtend(ls: seq<Line>, ps: seq<nat>, m: nat)
    requires |ps| > 0 && Bounds(ps, |ls|) && ps[|ps| - 1] < m <= |ls|
    ensures Bounds(ps + [m], |ls|)
    ensures Entries(ls, ps + [m], |ps|) == Entries(ls, ps, |ps| - 1) + [Entry(ls, ps[|ps| - 1], m)]
  {
    var ps' := ps + [m];
    BoundsSnoc(ps, m, |ls|);
    assert ps'[|ps| - 1] == ps[|ps| - 1] && ps'[|ps|] == m;
    EntriesAgree(ls, ps, ps', |ps| - 1);
  }

  /** Any other line changes only the answer or the explanation, as the
      reference has them. */
  lemma InnerLineStep(ls: seq<Line>, m: nat)
    requires m < |ls| && FallbackLines(ls) && ls[m].kind != Opener
    ensures StepLine(Expected(ls, m), ls[m]) == Expected(ls, m + 1)
  {
    var ps := OpenersUpTo(ls, m);
    assert OpenersUpTo(ls, m + 1) == ps;
    if |ps| > 0 {
      var p := ps[|ps| - 1];
      var done := Entries(ls, ps, |ps| - 1);
      assert Expected(ls, m) == Open(ls, p, m, done);
      assert Expected(ls, m + 1) == Open(ls, p, m + 1, done);
      assert ls[p].kind == Opener;
      InsideLineStep(ls, m, p, done);
    } else {
      assert Expected(ls, m) == Start && Expected(ls, m + 1) == Start;
    }
  }

  /** Inside the record opened at `p`, a line that opens none updates the
      answer and the explanation as the reference has them. */
  lemma InsideLineStep(ls: seq<Line>, m: nat, p: nat, done: seq<Record>)
    requires p < m < |ls| && ls[m].kind != Opener && ls[p].text != ""
    requires ls[m].kind == Marker ==> ls[m].note == ls[m].text
    ensures StepLine(Open(ls, p, m, done), ls[m]) == Open(ls, p, m + 1, done)
  {
    ExplanationStep(ls, p + 1, m);
  }

  /** Entries depend only on the positions they use. */
  lemma {:induction false} EntriesAgree(ls: seq<Line>, a: seq<nat>, b: seq<nat>, n: nat)
    requires n < |a| && n < |b| && Bounds(a, |ls|) && Bounds(b, |ls|)
    requires forall k :: 0 <= k <= n ==> a[k] == b[k]
    ensures Entries(ls, a, n) == Entries(ls, b, n)
  {
    if n > 0 { EntriesAgree(ls, a, b, n - 1); }
  }

  /** The records of the first `n` positions, one per position. */
  lemma {:induction false} EntriesAt(ls: seq<Line>, bs: seq<nat>, n: nat)
    requires n < |bs| && Bounds(bs, |ls|)
    ensures |Entries(ls, bs, n)| == n
    ensures forall k :: 0 <= k < n ==> Entries(ls, bs, n)[k] == Entry(ls, bs[k], bs[k + 1])
  {
    if n > 0 {
      EntriesAt(ls, bs, n - 1);
    }
  }

  /** Emitting the open record at the end completes the reference. */
  lemma FinishExpected(ls: seq<Line>)
    requires FallbackLines(ls)
    ensures Finish(Expected(ls, |ls|)) == Reference(ls)
  {
    var ps := Openers(ls);
    var bs := ps + [|ls|];
    OpenersBounded(ls);
    if |ps| > 0 {
      var last := |ps| - 1;
      assert Expected(ls, |ls|).question != "";
      EntriesAgree(ls, ps, bs, last);
      assert bs[last] == ps[last] && bs[last + 1] == |ls|;
    }
  }

  /** Appending a line leaves the fold over the earlier lines as it was. */
  lemma {:induction false} FoldSnoc(ls: seq<Line>, x: Line, m: nat)
    requires m <= |ls|
    ensures Fold(ls + [x], m) == Fold(ls, m)
  {
    if m > 0 {
      assert (ls + [x])[m - 1] == ls[m - 1];
      FoldSnoc(ls, x, m - 1);
    }
  }

  /** One more raw line steps the fold over the canonical lines. */
  lemma CanonicalStep(tag: string -> Line, raws: seq<string>, n: nat)
    requires n < |raws|
    ensures Step(tag, FoldAll(CanonicalUpTo(tag, raws, n)), raws[n]) == FoldAll(CanonicalUpTo(tag, raws, n + 1))
  {
    var c := CanonicalUpTo(tag, raws, n);
    var line := Strip(raws[n]);
    assert CanonicalUpTo(tag, raws, n + 1) == c + (if line == "" then [] else [tag(line)]);
    StepIsFold(tag, c, raws[n]);
  }

  /** A raw line steps the fold exactly as it extends the canonical lines:
      a blank line adds nothing, any other line adds its tagged form. */
  lemma StepIsFold(tag: string -> Line, c: seq<Line>, raw: string)
    ensures var line := Strip(raw);
            var c' := c + (if line == "" then [] else [tag(line)]);
            Step(tag, FoldAll(c), raw) == FoldAll(c')
  {
    var line := Strip(raw);
    if line != "" {
      FoldSnoc(c, tag(line), |c|);
      assert (c + [tag(line)])[|c|] == tag(line);
    } else {
      assert c + [] == c;
    }
  }

  /** With fallback tagging, the parser returns one record per numbered
      line of the text, as the reference describes. */
  lemma ParseWithIsReference(tag: string -> Line, text: string)
    requires FallbackTagging(tag)
    ensures ParseWith(tag, text) == Reference(Canonical(tag, SplitLines(text)))
  {
    var raws := SplitLines(text);
    var ls := Canonical(tag, raws);
    CanonicalTagged(tag, raws);
    FoldExpected(ls, |ls|);
    FinishExpected(ls);
  }
}
