/** What the filled table holds when the records come from the parsers:
    the primary labels land unchanged in the first column, and an answer
    line whose label has a space before its colon keeps that label in the
    answer cell. */
module FillProps {
  import opened Strings
  import opened Lines
  import PrimarySpec
  import PrimaryProps
  import PlainRules
  import DocRules
  import opened TableFill

  /** A label `f"{n}."` is written as it is under both fillers: it holds
      no `à`. */
  lemma LabelCellText(v: Variant, n: nat)
    ensures CellText(v, Label(n)) == Label(n)
  {
    var l := Label(n);
    LabelShape(n);
    if v == Doc {
      assert 'à' !in l by {
        forall i | 0 <= i < |l| ensures l[i] != 'à' {
          if i < |l| - 1 {
            assert '0' <= l[i] <= '9';
          }
        }
      }
      DocRules.ProcessWingdingsKeepsPlainText(l);
    }
  }

  /** After the table is filled with the primary parse of a text, it has a
      row below the header for every record, and the first cell of row
      `j`, when the row has one, holds the label `j.`. */
  lemma PrimaryLabelsInFirstColumn(v: Variant, rows: seq<seq<string>>, columns: nat, text: string)
    ensures var qs := PrimarySpec.Parse(v, text);
            var f := Filled(rows, columns, CellsFor(v, qs));
            |f| > |qs|
            && forall j :: 1 <= j <= |qs| && |f[j]| > 0 ==> f[j][0] == Label(j)
  {
    var qs := PrimarySpec.Parse(v, text);
    var cs := CellsFor(v, qs);
    var f := Filled(rows, columns, cs);
    PrimaryProps.ParseLabels(v, text);
    FilledLayout(rows, columns, cs);
    forall j | 1 <= j <= |qs| && |f[j]| > 0 ensures f[j][0] == Label(j) {
      var k := j - 1;
      var row := if j < |rows| then rows[j] else Blank(columns);
      FillRowCells(row, cs[k]);
      CellsForAt(v, qs, k);
      LabelCellText(v, j);
    }
  }

  /** `答案 : (A)`, with a space before the colon, is an answer line of the
      plain filler (`PlainRules.BothWidthsRecognised`), but the label
      removal of the fill only knows `答案：` and `答案:`: the answer cell
      keeps the whole line. */
  lemma SpacedAnswerLabelKept()
    ensures CellAnswer("答案 : (A)") == "答案 : (A)"
  {
    SpacedLabelNotRemoved("答案：");
    SpacedLabelNotRemoved("答案:");
    SpacedLineStripped();
  }

  /** The spaced answer line is already stripped. */
  lemma SpacedLineStripped()
    ensures Strip("答案 : (A)") == "答案 : (A)"
  {
    StrippedLine("答案 : (A)");
  }

  /** Neither label form occurs in the spaced answer line. */
  lemma SpacedLabelNotRemoved(p: string)
    requires p == "答案：" || p == "答案:"
    ensures RemoveAll("答案 : (A)", p) == "答案 : (A)"
  {
    var s := "答案 : (A)";
    forall i | 1 <= i < |s| ensures s[i] != p[0] {}
    assert s[2] != p[2];
    RemoveAllNoMatch(s, p);
  }

  /** A line that neither starts nor ends with whitespace is stripped. */
  lemma StrippedLine(s: string)
    requires s != [] && !IsSpace(s[0]) && !IsSpace(s[|s| - 1])
    ensures Strip(s) == s
  {
    StripUnique([], s, []);
    assert [] + s + [] == s;
  }

  /** Text that does not start with the pattern and holds the pattern's
      first character nowhere else holds no occurrence, so it is left as it
      is. */
  lemma RemoveAllNoMatch(s: string, p: string)
    requires p != [] && s != []
    requires |s| < |p| || s[..|p|] != p
    requires forall i :: 1 <= i < |s| ==> s[i] != p[0]
    ensures RemoveAll(s, p) == s
  {
    forall i | 0 <= i <= |s| ensures !OccursAt(s, i, p) {
      if 0 < i && i + |p| <= |s| {
        assert s[i..i + |p|][0] == s[i];
      }
    }
    RemoveAllAbsent(s, p);
  }
}
