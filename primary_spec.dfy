/** The primary answer-key parser, in both of its copies: the one of the
    legacy-document filler (word_form_filler_doc.py) and the one shared by
    the plain filler and its test script (word_form_filler.py,
    test_parser.py). The copies run the same loop; they differ only in
    which lines they take for answer and explanation lines, in the
    explanation an explanation line starts, and in whether the answer is
    cleaned. Those differences are gathered in `Rules`. */
module PrimarySpec {
  import opened Strings
  import opened Lines
  import DocRules

  /** The parser's variables between lines: the number the open record
      will be given, the answer line of the open record (`""` while none is
      open), its explanation so far (`""` for none) and the records already
      emitted. */
  datatype State = State(num: nat, answer: string, explanation: string, questions: seq<Record>)

  const Start: State := State(1, "", "", [])

  /** How a copy of the parser tags a stripped line and cleans an answer. */
  datatype Rules = Rules(tag: string -> Line, clean: string -> string)

  /** Rules of the primary grammar: tagging keeps a line's text and never
      yields a fallback answer line. */
  ghost predicate WellFormed(r: Rules)
  {
    KeepsText(r.tag) && forall t :: r.tag(t).kind != AnswerLine
  }

  /** The answer a record keeps: the legacy-document copy cleans the
      answer line, the plain copy keeps it whole. */
  function CleanFor(v: Variant, answer: string): string
  {
    match v
    case Doc => DocRules.CleanAnswer(answer)
    case Plain => answer
  }

  /** The rules of copy `v`. */
  function RulesOf(v: Variant): Rules
  {
    Rules(Tagger(Primary(v)), a => CleanFor(v, a))
  }

  lemma RulesOfWellFormed(v: Variant)
    ensures WellFormed(RulesOf(v))
  {
    forall t ensures RulesOf(v).tag(t).kind != AnswerLine {
      assert RulesOf(v).tag(t) == Tag(Primary(v), t);
    }
  }

  /** A stripped line tagged under `r`. */
  function TagLine(r: Rules, line: string): Line
  {
    r.tag(line)
  }

  /** The record of the open question: its number as a label, its cleaned
      answer and its explanation. */
  function Emit(r: Rules, num: nat, answer: string, explanation: string): Record
  {
    Record(Label(num), r.clean(answer), explanation)
  }

  /** The effect of one stripped, non-blank line. An answer line closes the
      open record, if any, and opens a new one; an explanation line inside
      a record replaces its explanation; any other line inside a record is
      appended to a non-empty explanation after one space. */
  function StepLine(r: Rules, st: State, l: Line): State
  {
    match l.kind
    case Opener =>
      if st.answer != "" then State(st.num + 1, l.text, "", st.questions + [Emit(r, st.num, st.answer, st.explanation)])
      else State(st.num, l.text, "", st.questions)
    case Marker =>
      if st.answer != "" then st.(explanation := l.note) else st
    case _ =>
      if st.explanation != "" && st.answer != "" then st.(explanation := st.explanation + " " + l.text) else st
  }

  /** The effect of one raw line: it is stripped, and skipped when blank. */
  function Step(r: Rules, st: State, raw: string): State
  {
    var line := Strip(raw);
    if line == "" then st else StepLine(r, st, TagLine(r, line))
  }

  /** The state after the first `m` canonical lines: the step folded over them. */
  function Fold(r: Rules, ls: seq<Line>, m: nat): State
    requires m <= |ls|
  {
    if m == 0 then Start else StepLine(r, Fold(r, ls, m - 1), ls[m - 1])
  }

  /** The state after all the canonical lines. */
  function FoldAll(r: Rules, ls: seq<Line>): State
  {
    Fold(r, ls, |ls|)
  }

  /** The records once the lines are exhausted: the open record, if any, is
      emitted last. */
  function Finish(r: Rules, st: State): seq<Record>
  {
    if st.answer != "" then st.questions + [Emit(r, st.num, st.answer, st.explanation)] else st.questions
  }

  /** The records a parser with rules `r` returns for `text`. */
  function ParseWith(r: Rules, text: string): seq<Record>
  {
    Finish(r, FoldAll(r, Canonical(r.tag, SplitLines(text))))
  }

  /** What `_parse_questions_from_text` of copy `v` returns for `text`. */
  function Parse(v: Variant, text: string): seq<Record>
  {
    ParseWith(RulesOf(v), text)
  }


  // The reference reading of the parser: one record per answer line.

  /** The record of the `k`-th answer line, found at line `p`, whose
      record's lines run up to line `e`. */
  function Entry(r: Rules, ls: seq<Line>, k: nat, p: nat, e: nat): Record
    requires p < e <= |ls|
  {
    Emit(r, k + 1, ls[p].text, Explanation(ls, p + 1, e))
  }

  /** The records of the first `n` answer lines at positions `bs`, each
      running up to the next position. */
  function Entries(r: Rules, ls: seq<Line>, bs: seq<nat>, n: nat): seq<Record>
    requires n < |bs| && Bounds(bs, |ls|)
  {
    if n == 0 then [] else Entries(r, ls, bs, n - 1) + [Entry(r, ls, n - 1, bs[n - 1], bs[n])]
  }

  /** One record per answer line, in order: the `k`-th is labelled `k+1.`,
      carries that line's cleaned answer and the explanation of the lines
      up to the next answer line. */
  function Reference(r: Rules, ls: seq<Line>): seq<Record>
  {
    var ps := Openers(ls);
    OpenersBounded(ls);
    Entries(r, ls, ps + [|ls|], |ps|)
  }

  /** The state after `m` canonical lines as the reference describes it:
      before the first answer line the start state; after it, the last
      answer line so far is open, numbered by the count of answer lines and
      carrying the explanation of the lines after it, and the records of
      the earlier answer lines are emitted. */
  function Expected(r: Rules, ls: seq<Line>, m: nat): State
    requires m <= |ls|
  {
    var ps := OpenersUpTo(ls, m);
    if |ps| == 0 then Start
    else Open(ls, |ps|, ps[|ps| - 1], m, Entries(r, ls, ps, |ps| - 1))
  }

  /** The state while the answer line at `p`, numbered `num`, is open and
      `m` lines are read: its explanation comes from the lines after it. */
  function Open(ls: seq<Line>, num: nat, p: nat, m: nat, done: seq<Record>): State
    requires p < m <= |ls|
  {
    State(num, ls[p].text, Explanation(ls, p + 1, m), done)
  }

  /** Lines as the primary grammar tags them: no fallback answer lines, and
      answer lines are never blank. */
  ghost predicate PrimaryLines(ls: seq<Line>)
  {
    forall i :: 0 <= i < |ls| ==> ls[i].kind != AnswerLine && (ls[i].kind == Opener ==> ls[i].text != "")
  }

  /** Folding the parser's step over canonical lines yields the state the
      reference describes. */
  lemma {:induction false} FoldExpected(r: Rules, ls: seq<Line>, m: nat)
    requires m <= |ls| && PrimaryLines(ls)
    ensures Fold(r, ls, m) == Expected(r, ls, m)
  {
    if m > 0 {
      FoldExpected(r, ls, m - 1);
      StepExpected(r, ls, m - 1);
    }
  }

  /** One canonical line takes the described state to the next one. */
  lemma StepExpected(r: Rules, ls: seq<Line>, m: nat)
    requires m < |ls| && PrimaryLines(ls)
    ensures StepLine(r, Expected(r, ls, m), ls[m]) == Expected(r, ls, m + 1)
  {
    if ls[m].kind != Opener {
      PlainLineStep(r, ls, m);
    } else if |OpenersUpTo(ls, m)| == 0 {
      FirstOpenerStep(r, ls, m);
    } else {
      NextOpenerStep(r, ls, m);
    }
  }

  /** The first answer line opens the first record. */
  lemma FirstOpenerStep(r: Rules, ls: seq<Line>, m: nat)
    requires m < |ls| && ls[m].kind == Opener && |OpenersUpTo(ls, m)| == 0
    ensures StepLine(r, Expected(r, ls, m), ls[m]) == Expected(r, ls, m + 1)
  {
    assert OpenersUpTo(ls, m + 1) == [m];
    ExplanationEmpty(ls, m + 1);
  }

  /** A later answer line emits the open record as the reference has it
      and opens the next one. */
  lemma NextOpenerStep(r: Rules, ls: seq<Line>, m: nat)
    requires m < |ls| && PrimaryLines(ls) && ls[m].kind == Opener && |OpenersUpTo(ls, m)| > 0
    ensures StepLine(r, Expected(r, ls, m), ls[m]) == Expected(r, ls, m + 1)
  {
    var ps := OpenersUpTo(ls, m);
    assert OpenersUpTo(ls, m + 1) == ps + [m];
    OpenersUpToBounded(ls, m);
    EntriesExtend(r, ls, ps, m);
    ExplanationEmpty(ls, m + 1);
  }

  /** Closing the last record at a new position adds its entry. */
  lemma EntriesExtend(r: Rules, ls: seq<Line>, ps: seq<nat>, m: nat)
    requires |ps| > 0 && Bounds(ps, |ls|) && ps[|ps| - 1] < m <= |ls|
    ensures Bounds(ps + [m], |ls|)
    ensures Entries(r, ls, ps + [m], |ps|) == Entries(r, ls, ps, |ps| - 1) + [Entry(r, ls, |ps| - 1, ps[|ps| - 1], m)]
  {
    var ps' := ps + [m];
    BoundsSnoc(ps, m, |ls|);
    assert ps'[|ps| - 1] == ps[|ps| - 1] && ps'[|ps|] == m;
    EntriesAgree(r, ls, ps, ps', |ps| - 1);
  }

  /** Any other line changes only the explanation, as the reference has it. */
  lemma PlainLineStep(r: Rules, ls: seq<Line>, m: nat)
    requires m < |ls| && PrimaryLines(ls) && ls[m].kind != Opener
    ensures StepLine(r, Expected(r, ls, m), ls[m]) == Expected(r, ls, m + 1)
  {
    var ps := OpenersUpTo(ls, m);
    assert OpenersUpTo(ls, m + 1) == ps;
    if |ps| > 0 {
      var p := ps[|ps| - 1];
      var done := Entries(r, ls, ps, |ps| - 1);
      assert Expected(r, ls, m) == Open(ls, |ps|, p, m, done);
      assert Expected(r, ls, m + 1) == Open(ls, |ps|, p, m + 1, done);
      assert ls[p].kind == Opener;
      InsideLineStep(r, ls, m, |ps|, p, done);
    } else {
      assert Expected(r, ls, m) == Start && Expected(r, ls, m + 1) == Start;
    }
  }

  /** Inside the record opened at `p`, a line that opens none updates the
      explanation as the reference has it. */
  lemma InsideLineStep(r: Rules, ls: seq<Line>, m: nat, num: nat, p: nat, done: seq<Record>)
    requires p < m < |ls| && ls[m].kind != Opener && ls[m].kind != AnswerLine && ls[p].text != ""
    ensures StepLine(r, Open(ls, num, p, m, done), ls[m]) == Open(ls, num, p, m + 1, done)
  {
    ExplanationStep(ls, p + 1, m);
  }

  /** Entries depend only on the positions they use. */
  lemma {:induction false} EntriesAgree(r: Rules, ls: seq<Line>, a: seq<nat>, b: seq<nat>, n: nat)
    requires n < |a| && n < |b| && Bounds(a, |ls|) && Bounds(b, |ls|)
    requires forall k :: 0 <= k <= n ==> a[k] == b[k]
    ensures Entries(r, ls, a, n) == Entries(r, ls, b, n)
  {
    if n > 0 { EntriesAgree(r, ls, a, b, n - 1); }
  }

  /** Emitting the open record at the end completes the reference. */
  lemma FinishExpected(r: Rules, ls: seq<Line>)
    requires PrimaryLines(ls)
    ensures Finish(r, Expected(r, ls, |ls|)) == Reference(r, ls)
  {
    var ps := Openers(ls);
    var bs := ps + [|ls|];
    OpenersBounded(ls);
    if |ps| > 0 {
      var last := |ps| - 1;
      assert Expected(r, ls, |ls|).answer != "";
      EntriesAgree(r, ls, ps, bs, last);
      assert bs[last] == ps[last] && bs[last + 1] == |ls|;
    }
  }

  /** Appending a line leaves the fold over the earlier lines as it was. */
  lemma {:induction false} FoldSnoc(r: Rules, ls: seq<Line>, x: Line, m: nat)
    requires m <= |ls|
    ensures Fold(r, ls + [x], m) == Fold(r, ls, m)
  {
    if m > 0 {
      assert (ls + [x])[m - 1] == ls[m - 1];
      FoldSnoc(r, ls, x, m - 1);
    }
  }

  /** One more raw line steps the fold over the canonical lines. */
  lemma CanonicalStep(r: Rules, raws: seq<string>, n: nat)
    requires n < |raws|
    ensures Step(r, FoldAll(r, CanonicalUpTo(r.tag, raws, n)), raws[n]) == FoldAll(r, CanonicalUpTo(r.tag, raws, n + 1))
  {
    var c := CanonicalUpTo(r.tag, raws, n);
    var line := Strip(raws[n]);
    assert CanonicalUpTo(r.tag, raws, n + 1) == c + (if line == "" then [] else [r.tag(line)]);
    StepIsFold(r, c, raws[n]);
  }

  /** A raw line steps the fold exactly as it extends the canonical lines:
      a blank line adds nothing, any other line adds its tagged form. */
  lemma StepIsFold(r: Rules, c: seq<Line>, raw: string)
    ensures var line := Strip(raw);
            var c' := c + (if line == "" then [] else [r.tag(line)]);
            Step(r, FoldAll(r, c), raw) == FoldAll(r, c')
  {
    var line := Strip(raw);
    if line != "" {
      FoldSnoc(r, c, r.tag(line), |c|);
      assert (c + [r.tag(line)])[|c|] == r.tag(line);
    } else {
      assert c + [] == c;
    }
  }

  /** A parser with well-formed rules returns one record per answer line
      of the text, as the reference describes. */
  lemma ParseWithIsReference(r: Rules, text: string)
    requires WellFormed(r)
    ensures ParseWith(r, text) == Reference(r, Canonical(r.tag, SplitLines(text)))
  {
    var raws := SplitLines(text);
    var ls := Canonical(r.tag, raws);
    CanonicalTagged(r.tag, raws);
    FoldExpected(r, ls, |ls|);
    FinishExpected(r, ls);
  }
}
