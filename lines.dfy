/** What the parsers share: the record triple, the canonical line sequence,
    the classification of a line under each grammar, and how an explanation
    is accumulated from the lines of one record. */
module Lines {
  import opened Strings
  import DocRules
  import PlainRules
  import FallbackRules

  /** One answer-key entry `(question, answer, explanation)`: the question
      is the label written to the first column; `""` stands for a missing
      answer or explanation. */
  datatype Record = Record(question: string, answer: string, explanation: string)

  /** Which copy of the primary parser: the legacy-document filler or the
      plain filler (and its test copy). */
  datatype Variant = Doc | Plain

  datatype Grammar = Primary(variant: Variant) | Fallback

  /** The role of a line: it opens a record, carries a fallback answer,
      carries an explanation label, or is anything else. */
  datatype Kind = Opener | AnswerLine | Marker | Other

  /** Whether `line` is an answer line of the primary parser. */
  predicate IsAnswerLine(v: Variant, line: string) {
    match v
    case Doc => DocRules.IsAnswerLine(line)
    case Plain => PlainRules.IsAnswerLine(line)
  }

  /** Whether `line` is an explanation line of the primary parser. */
  predicate IsExplanationLine(v: Variant, line: string) {
    match v
    case Doc => DocRules.IsExplanationLine(line)
    case Plain => PlainRules.IsExplanationLine(line)
  }

  /** The role of a line, the patterns tried in the parsers' order. */
  function Classify(g: Grammar, line: string): (k: Kind)
    ensures g.Primary? ==> k != AnswerLine
    ensures k == Opener ==> line != []
    ensures g.Fallback? && k == Marker ==> line != []
  {
    match g
    case Primary(v) =>
      if IsAnswerLine(v, line) then Opener
      else if IsExplanationLine(v, line) then Marker
      else Other
    case Fallback =>
      if FallbackRules.IsNumberedLine(line) then Opener
      else if FallbackRules.IsAnswerLine(line) then AnswerLine
      else if FallbackRules.IsExplanationLine(line) then Marker
      else Other
  }

  /** The explanation an explanation line starts: the doc variant removes a
      leading label, the others keep the whole line. */
  function MarkerText(g: Grammar, line: string): string
  {
    if g == Primary(Doc) then DocRules.ExplanationText(line) else line
  }

  /** A canonical line with its role and, for an explanation line, the
      explanation it starts. */
  datatype Line = Line(text: string, kind: Kind, note: string)

  /** Tags a stripped, non-blank line under grammar `g`. */
  function Tag(g: Grammar, text: string): (l: Line)
    ensures l.text == text
    ensures g.Primary? ==> l.kind != AnswerLine
  {
    Line(text, Classify(g, text), MarkerText(g, text))
  }

  /** One line's effect on the explanation of an open record: an
      explanation line replaces it, any other line is appended after one
      space if the explanation is non-empty, an answer line leaves it. */
  function ExplStep(e: string, l: Line): string
  {
    match l.kind
    case Marker => l.note
    case Other => if e != "" then e + " " + l.text else ""
    case _ => e
  }

  /** Index of the last explanation line among `ls[lo..hi]`, or -1. */
  function LastMarker(ls: seq<Line>, lo: nat, hi: nat): (j: int)
    requires lo <= hi <= |ls|
    ensures j == -1 || (lo <= j < hi && ls[j].kind == Marker)
    decreases hi - lo
  {
    if hi == lo then -1
    else if ls[hi - 1].kind == Marker then hi - 1
    else LastMarker(ls, lo, hi - 1)
  }

  /** `e` followed by the plain lines of `ls[lo..hi]`, one space before
      each. */
  function JoinPlain(e: string, ls: seq<Line>, lo: nat, hi: nat): string
    requires lo <= hi <= |ls|
    decreases hi - lo
  {
    if hi == lo then e
    else
      var init := JoinPlain(e, ls, lo, hi - 1);
      if ls[hi - 1].kind == Other then init + " " + ls[hi - 1].text else init
  }

  /** The explanation a record ends with, given its lines after the opening
      one, `ls[lo..hi]`: the text of the last explanation line followed by
      every later plain line, one space apart; `""` when there is no
      explanation line or its text is empty. */
  function Explanation(ls: seq<Line>, lo: nat, hi: nat): string
    requires lo <= hi <= |ls|
  {
    var j := LastMarker(ls, lo, hi);
    if j < 0 || ls[j].note == "" then ""
    else JoinPlain(ls[j].note, ls, j + 1, hi)
  }

  /** The explanation of a record with one more line is one accumulation
      step from the explanation before it. */
  lemma ExplanationStep(ls: seq<Line>, lo: nat, hi: nat)
    requires lo <= hi < |ls|
    ensures Explanation(ls, lo, hi + 1) == ExplStep(Explanation(ls, lo, hi), ls[hi])
  {
    var j := LastMarker(ls, lo, hi);
    if ls[hi].kind != Marker && j >= 0 && ls[j].note != "" {
      JoinPlainNonEmpty(ls[j].note, ls, j + 1, hi);
    }
  }

  lemma {:induction false} JoinPlainNonEmpty(e: string, ls: seq<Line>, lo: nat, hi: nat)
    requires lo <= hi <= |ls| && e != ""
    ensures JoinPlain(e, ls, lo, hi) != ""
    decreases hi - lo
  {
    if hi > lo { JoinPlainNonEmpty(e, ls, lo, hi - 1); }
  }

  /** Accumulating plain lines only extends the explanation. */
  lemma {:induction false} JoinPlainExtends(e: string, ls: seq<Line>, lo: nat, hi: nat)
    requires lo <= hi <= |ls|
    ensures e <= JoinPlain(e, ls, lo, hi)
    decreases hi - lo
  {
    if hi > lo { JoinPlainExtends(e, ls, lo, hi - 1); }
  }

  /** A non-empty explanation begins with the explanation its record's last
      explanation line started. */
  lemma ExplanationStartsWithNote(ls: seq<Line>, lo: nat, hi: nat)
    requires lo <= hi <= |ls|
    ensures var x := Explanation(ls, lo, hi);
            x == "" || exists j :: lo <= j < hi && ls[j].kind == Marker && ls[j].note != "" && ls[j].note <= x
  {
    var j := LastMarker(ls, lo, hi);
    if j >= 0 && ls[j].note != "" {
      JoinPlainExtends(ls[j].note, ls, j + 1, hi);
    }
  }

  /** A record without lines has no explanation. */
  lemma ExplanationEmpty(ls: seq<Line>, lo: nat)
    requires lo <= |ls|
    ensures Explanation(ls, lo, lo) == ""
  {
  }

  /** A later explanation line replaces the explanation collected so far. */
  lemma LaterMarkerReplaces(ls: seq<Line>, lo: nat, hi: nat)
    requires lo <= hi < |ls| && ls[hi].kind == Marker
    ensures Explanation(ls, lo, hi + 1) == ls[hi].note
  {
    ExplanationStep(ls, lo, hi);
  }

  /** A plain line is appended after exactly one space once an explanation
      has begun, and dropped before that. */
  lemma PlainLineJoinsWithOneSpace(ls: seq<Line>, lo: nat, hi: nat)
    requires lo <= hi < |ls| && ls[hi].kind == Other
    ensures Explanation(ls, lo, hi) != "" ==> Explanation(ls, lo, hi + 1) == Explanation(ls, lo, hi) + " " + ls[hi].text
    ensures Explanation(ls, lo, hi) == "" ==> Explanation(ls, lo, hi + 1) == ""
  {
    ExplanationStep(ls, lo, hi);
  }

  /** A tagging of stripped lines that keeps each line's text. */
  ghost predicate KeepsText(tag: string -> Line)
  {
    forall t :: tag(t).text == t
  }

  /** Tagging under grammar `g`, as a function value. */
  function Tagger(g: Grammar): (tag: string -> Line)
    ensures KeepsText(tag)
  {
    t => Tag(g, t)
  }

  /** The stripped, non-blank lines among the first `n` raw lines, in
      order, each tagged by `tag`. */
  function CanonicalUpTo(tag: string -> Line, raws: seq<string>, n: nat): (ls: seq<Line>)
    requires n <= |raws|
    ensures |ls| <= n
  {
    if n == 0 then []
    else
      var line := Strip(raws[n - 1]);
      CanonicalUpTo(tag, raws, n - 1) + (if line == "" then [] else [tag(line)])
  }

  /** The stripped, non-blank lines, in order, each tagged by `tag`. */
  function Canonical(tag: string -> Line, raws: seq<string>): (ls: seq<Line>)
    ensures |ls| <= |raws|
  {
    CanonicalUpTo(tag, raws, |raws|)
  }

  /** Every line is non-blank, stripped and tagged by `tag` from its text. */
  ghost predicate TaggedLines(tag: string -> Line, ls: seq<Line>)
  {
    forall k :: 0 <= k < |ls| ==> ls[k] == tag(ls[k].text) && ls[k].text != "" && Strip(ls[k].text) == ls[k].text
  }

  lemma {:induction false} CanonicalUpToTagged(tag: string -> Line, raws: seq<string>, n: nat)
    requires n <= |raws| && KeepsText(tag)
    ensures TaggedLines(tag, CanonicalUpTo(tag, raws, n))
  {
    if n > 0 {
      CanonicalUpToTagged(tag, raws, n - 1);
      var c := CanonicalUpTo(tag, raws, n - 1);
      var line := Strip(raws[n - 1]);
      if line != "" {
        assert CanonicalUpTo(tag, raws, n) == c + [tag(line)];
        StripIdempotent(raws[n - 1]);
        TaggedSnoc(tag, c, line);
      } else {
        assert CanonicalUpTo(tag, raws, n) == c;
      }
    }
  }

  /** A stripped, non-blank line tagged by `tag` keeps the lines tagged. */
  lemma TaggedSnoc(tag: string -> Line, c: seq<Line>, line: string)
    requires KeepsText(tag) && TaggedLines(tag, c)
    requires line != "" && Strip(line) == line
    ensures TaggedLines(tag, c + [tag(line)])
  {
    var ls := c + [tag(line)];
    assert tag(line).text == line;
    forall k | 0 <= k < |ls|
      ensures ls[k] == tag(ls[k].text) && ls[k].text != "" && Strip(ls[k].text) == ls[k].text
    {
      if k < |c| { assert ls[k] == c[k]; }
    }
  }

  /** The canonical lines of a text are non-blank, stripped and tagged. */
  lemma CanonicalTagged(tag: string -> Line, raws: seq<string>)
    requires KeepsText(tag)
    ensures TaggedLines(tag, Canonical(tag, raws))
  {
    CanonicalUpToTagged(tag, raws, |raws|);
  }

  /** `t` is one of the raw lines, stripped. */
  predicate StrippedLineOf(raws: seq<string>, t: string)
  {
    exists j :: 0 <= j < |raws| && Strip(raws[j]) == t
  }

  lemma {:induction false} CanonicalUpToFromRaws(tag: string -> Line, raws: seq<string>, n: nat)
    requires n <= |raws| && KeepsText(tag)
    ensures forall k :: 0 <= k < |CanonicalUpTo(tag, raws, n)| ==> StrippedLineOf(raws, CanonicalUpTo(tag, raws, n)[k].text)
  {
    if n > 0 {
      CanonicalUpToFromRaws(tag, raws, n - 1);
      var c := CanonicalUpTo(tag, raws, n - 1);
      var line := Strip(raws[n - 1]);
      if line != "" {
        var c' := CanonicalUpTo(tag, raws, n);
        assert c' == c + [tag(line)];
        forall k | 0 <= k < |c'| ensures StrippedLineOf(raws, c'[k].text) {
          if k < |c| {
            assert c'[k] == c[k];
          } else {
            assert c'[k].text == Strip(raws[n - 1]);
            assert StrippedLineOf(raws, Strip(raws[n - 1]));
          }
        }
      } else {
        assert CanonicalUpTo(tag, raws, n) == c;
      }
    }
  }

  /** Every canonical line is one of the raw lines, stripped. */
  lemma CanonicalFromRaws(tag: string -> Line, raws: seq<string>)
    requires KeepsText(tag)
    ensures var c := Canonical(tag, raws);
            forall k :: 0 <= k < |c| ==> StrippedLineOf(raws, c[k].text)
  {
    CanonicalUpToFromRaws(tag, raws, |raws|);
    assert Canonical(tag, raws) == CanonicalUpTo(tag, raws, |raws|);
  }

  /** Raw lines that are whitespace only give no canonical lines. */
  lemma {:induction false} BlankLinesHaveNoLines(tag: string -> Line, raws: seq<string>, n: nat)
    requires n <= |raws|
    requires forall k :: 0 <= k < n ==> AllSpace(raws[k])
    ensures CanonicalUpTo(tag, raws, n) == []
  {
    if n > 0 { BlankLinesHaveNoLines(tag, raws, n - 1); }
  }

  /** Text that is whitespace only has no canonical lines. */
  lemma BlankTextHasNoLines(tag: string -> Line, text: string)
    requires AllSpace(text)
    ensures Canonical(tag, SplitLines(text)) == []
  {
    SplitLinesOfBlank(text);
    BlankLinesHaveNoLines(tag, SplitLines(text), |SplitLines(text)|);
  }

  /** Positions, in order, of the lines among the first `n` that open a
      record. */
  function OpenersUpTo(ls: seq<Line>, n: nat): (ps: seq<nat>)
    requires n <= |ls|
    ensures forall k :: 0 <= k < |ps| ==> ps[k] < n && ls[ps[k]].kind == Opener
    ensures forall j, k :: 0 <= j < k < |ps| ==> ps[j] < ps[k]
  {
    if n == 0 then []
    else
      var ps := OpenersUpTo(ls, n - 1);
      if ls[n - 1].kind == Opener then ps + [n - 1] else ps
  }

  /** No opening line among the first `n` is missed. */
  lemma {:induction false} OpenersUpToComplete(ls: seq<Line>, n: nat)
    requires n <= |ls|
    ensures forall i :: 0 <= i < n && ls[i].kind == Opener ==> i in OpenersUpTo(ls, n)
  {
    if n > 0 { OpenersUpToComplete(ls, n - 1); }
  }

  /** Positions, in order, of the lines that open a record. */
  function Openers(ls: seq<Line>): (ps: seq<nat>)
    ensures forall k :: 0 <= k < |ps| ==> ps[k] < |ls| && ls[ps[k]].kind == Opener
    ensures forall j, k :: 0 <= j < k < |ps| ==> ps[j] < ps[k]
  {
    OpenersUpTo(ls, |ls|)
  }

  /** Strictly increasing positions, none past `n`. */
  ghost predicate Bounds(bs: seq<nat>, n: nat)
  {
    (forall j, k :: 0 <= j < k < |bs| ==> bs[j] < bs[k]) && forall k :: 0 <= k < |bs| ==> bs[k] <= n
  }

  /** The positions of the opening lines among the first `n` are
      strictly increasing positions of the input. */
  lemma OpenersUpToBounded(ls: seq<Line>, n: nat)
    requires n <= |ls|
    ensures Bounds(OpenersUpTo(ls, n), |ls|)
  {
  }

  /** A position past the last keeps the positions strictly increasing. */
  lemma BoundsSnoc(bs: seq<nat>, m: nat, n: nat)
    requires Bounds(bs, n) && m <= n && (|bs| == 0 || bs[|bs| - 1] < m)
    ensures Bounds(bs + [m], n)
  {
    var bs' := bs + [m];
    forall j, k | 0 <= j < k < |bs'| ensures bs'[j] < bs'[k] {
      if k < |bs| { assert bs'[j] == bs[j] && bs'[k] == bs[k]; }
      else { assert bs'[j] == bs[j]; assert bs[j] <= bs[|bs| - 1]; }
    }
  }

  /** The positions of the opening lines, closed by the end of the input. */
  lemma OpenersBounded(ls: seq<Line>)
    ensures Bounds(Openers(ls) + [|ls|], |ls|)
  {
    var bs := Openers(ls) + [|ls|];
    forall j, k | 0 <= j < k < |bs| ensures bs[j] < bs[k] {
      if k < |bs| - 1 { assert bs[j] == Openers(ls)[j] && bs[k] == Openers(ls)[k]; }
      else { assert bs[j] == Openers(ls)[j]; }
    }
  }

  /** Where the record opened at `ps[k]` ends: at the next opener, or at the
      end of the input. */
  function SegmentEnd(ps: seq<nat>, k: nat, n: nat): nat
    requires k < |ps|
  {
    if k + 1 < |ps| then ps[k + 1] else n
  }

  /** The lines of the `k`-th record, after its opening line and up to
      the next opening line, hold no opening line. */
  lemma SegmentHasNoOpener(ls: seq<Line>, k: nat)
    requires k < |Openers(ls)|
    ensures var ps := Openers(ls);
            ps[k] < SegmentEnd(ps, k, |ls|) <= |ls|
            && forall i :: ps[k] < i < SegmentEnd(ps, k, |ls|) ==> ls[i].kind != Opener
  {
    var ps := Openers(ls);
    var e := SegmentEnd(ps, k, |ls|);
    OpenersUpToComplete(ls, |ls|);
    forall j | 0 <= j < |ps| ensures ps[j] <= ps[k] || e <= ps[j] {
      if k + 1 < j { assert ps[k + 1] < ps[j]; }
    }
  }
}
