/** Writing the records into the first table of the target document
    (`fill_target_document` in both fillers): rows are added until there
    is one per record below the header row, and record `i` goes into row
    `i + 1`, one cell per field as far as the row has cells. The document
    itself is a foreign library; a table is its rows of cell texts. */
module TableFill {
  import opened Strings
  import opened Lines
  import DocRules

  /** A table of the target document: each row is the list of its cells'
      texts, and `columns` is the number of cells a new row gets. */
  class Table {
    var rows: seq<seq<string>>
    const columns: nat

    constructor (rows: seq<seq<string>>, columns: nat)
      ensures this.rows == rows && this.columns == columns
    {
      this.rows := rows;
      this.columns := columns;
    }

    /** `table.add_row()`: a new last row with one empty cell per column. */
    method AddRow()
      modifies this
      ensures rows == old(rows) + [Blank(columns)]
    {
      rows := rows + [Blank(columns)];
    }

    /** Replaces the text of cell `c` of row `r`; nothing else changes. */
    method SetCell(r: nat, c: nat, text: string)
      requires r < |rows| && c < |rows[r]|
      modifies this
      ensures rows == old(rows)[r := old(rows)[r][c := text]]
    {
      rows := rows[r := rows[r][c := text]];
    }
  }

  /** The cells of a new row: all empty. */
  function Blank(columns: nat): seq<string>
  {
    seq(columns, _ => "")
  }

  /** The texts a record puts into the first three cells of its row. */
  datatype Cells = Cells(question: string, answer: string, explanation: string)

  /** The text a cell shows once written: the legacy-document filler writes
      through `_set_cell_text_with_font`, which maps `à` to `→`; the plain
      filler sets the text as it is. */
  function CellText(v: Variant, text: string): (r: string)
    ensures |r| == |text|
  {
    match v
    case Doc => DocRules.ProcessWingdings(text)
    case Plain => text
  }

  /** The answer cell's text before it is written: every `答案：` and then
      every `答案:` removed, then stripped. */
  function CellAnswer(answer: string): (r: string)
    ensures |r| <= |answer|
    ensures r == [] || (!IsSpace(r[0]) && !IsSpace(r[|r| - 1]))
  {
    Strip(RemoveAll(RemoveAll(answer, "答案："), "答案:"))
  }

  /** The explanation cell's text before it is written: every `解析：` and
      then every `解析:` removed, then stripped. */
  function CellExplanation(explanation: string): (r: string)
    ensures |r| <= |explanation|
    ensures r == [] || (!IsSpace(r[0]) && !IsSpace(r[|r| - 1]))
  {
    Strip(RemoveAll(RemoveAll(explanation, "解析："), "解析:"))
  }

  /** The third cell as written: the empty text for a blank explanation,
      else the cleaned explanation as the filler writes text. */
  function ExplanationCell(v: Variant, explanation: string): (r: string)
    ensures |r| <= |explanation|
  {
    if Strip(explanation) != "" then CellText(v, CellExplanation(explanation)) else ""
  }

  /** What record `q` writes into its row. */
  function CellsOf(v: Variant, q: Record): Cells
  {
    Cells(CellText(v, q.question), CellText(v, CellAnswer(q.answer)), ExplanationCell(v, q.explanation))
  }

  /** What each record writes, in order. */
  function CellsFor(v: Variant, qs: seq<Record>): (cs: seq<Cells>)
    ensures |cs| == |qs|
  {
    seq(|qs|, k requires 0 <= k < |qs| => CellsOf(v, qs[k]))
  }

  /** A cell written if the row has it: the filler checks the number of
      `row.cells` before each write. */
  function Put(row: seq<string>, c: nat, text: string): seq<string>
  {
    if c < |row| then row[c := text] else row
  }

  /** A record's cells written into a row, each only if the row has that
      cell. */
  function FillRow(row: seq<string>, cells: Cells): seq<string>
  {
    Put(Put(Put(row, 0, cells.question), 1, cells.answer), 2, cells.explanation)
  }

  /** The rows once the table has at least `n` of them: new rows are
      blank. */
  function Padded(rows: seq<seq<string>>, columns: nat, n: nat): (r: seq<seq<string>>)
    ensures |r| == (if n > |rows| then n else |rows|)
    ensures r[..|rows|] == rows
    ensures forall i :: |rows| <= i < |r| ==> r[i] == Blank(columns)
  {
    if n > |rows| then rows + seq(n - |rows|, _ => Blank(columns)) else rows
  }

  /** The rows once the first `i` records' cells are written below the
      header. */
  function FilledUpTo(rows: seq<seq<string>>, cs: seq<Cells>, i: nat): seq<seq<string>>
    requires i <= |cs| < |rows|
  {
    seq(|rows|, j requires 0 <= j < |rows| => if 1 <= j <= i then FillRow(rows[j], cs[j - 1]) else rows[j])
  }

  /** The rows of the table once every record's cells are written. */
  function Filled(rows: seq<seq<string>>, columns: nat, cs: seq<Cells>): seq<seq<string>>
  {
    FilledUpTo(Padded(rows, columns, |cs| + 1), cs, |cs|)
  }

  /** `fill_target_document` past loading the document: nothing happens
      when it has no table; otherwise the first table is filled. */
  method FillTargetDocument(v: Variant, tables: seq<Table>, questions: seq<Record>)
    modifies if |tables| > 0 then {tables[0]} else {}
    ensures |tables| > 0 ==> tables[0].rows == Filled(old(tables[0].rows), tables[0].columns, CellsFor(v, questions))
  {
    if |tables| == 0 {
      return;
    }
    FillTable(v, tables[0], questions);
  }

  /** Pads the table to one row per record plus the header, then writes
      record `i` into row `i + 1`. */
  method FillTable(v: Variant, table: Table, questions: seq<Record>)
    modifies table
    ensures table.rows == Filled(old(table.rows), table.columns, CellsFor(v, questions))
  {
    PadTable(table, |questions| + 1);
    WriteRecords(v, table, questions);
  }

  /** The padding loop: `add_row` as many times as rows are missing, each
      new row's cells set to the empty text. */
  method PadTable(table: Table, required: nat)
    modifies table
    ensures table.rows == Padded(old(table.rows), table.columns, required)
  {
    if required > |table.rows| {
      var missing := required - |table.rows|;
      var n := 0;
      while n < missing
        invariant 0 <= n <= missing
        invariant table.rows == Padded(old(table.rows), table.columns, |old(table.rows)| + n)
      {
        AddBlankRow(table);
        PaddedSnoc(old(table.rows), table.columns, |old(table.rows)| + n);
        n := n + 1;
      }
    }
  }

  /** One padding row: `add_row`, then every cell of the new row set to
      the empty text, which it already holds. */
  method AddBlankRow(table: Table)
    modifies table
    ensures table.rows == old(table.rows) + [Blank(table.columns)]
  {
    table.AddRow();
    var last := |table.rows| - 1;
    var c := 0;
    while c < |table.rows[last]|
      invariant table.rows == old(table.rows) + [Blank(table.columns)]
      invariant last == |table.rows| - 1
    {
      assert Blank(table.columns)[c := ""] == Blank(table.columns);
      table.SetCell(last, c, "");
      c := c + 1;
    }
  }

  /** The writing loop: record `i` into row `i + 1`. */
  method WriteRecords(v: Variant, table: Table, questions: seq<Record>)
    requires |questions| < |table.rows|
    modifies table
    ensures table.rows == FilledUpTo(old(table.rows), CellsFor(v, questions), |questions|)
  {
    ghost var cells := CellsFor(v, questions);
    var i := 0;
    while i < |questions|
      invariant 0 <= i <= |questions| < |old(table.rows)|
      invariant table.rows == FilledUpTo(old(table.rows), cells, i)
    {
      FilledUpToStep(old(table.rows), cells, i);
      CellsForAt(v, questions, i);
      ghost var before := table.rows;
      WriteRow(v, table, i + 1, questions[i]);
      assert table.rows == before[i + 1 := FillRow(before[i + 1], cells[i])];
      i := i + 1;
    }
  }

  /** One record into its row: the label, the cleaned answer and the
      cleaned explanation (or the empty text for a blank one), each only
      when the row has that cell. */
  method WriteRow(v: Variant, table: Table, row: nat, q: Record)
    requires row < |table.rows|
    modifies table
    ensures table.rows == old(table.rows)[row := FillRow(old(table.rows)[row], CellsOf(v, q))]
  {
    ghost var rows := table.rows;
    ghost var cells := CellsOf(v, q);
    ghost var labelled := Put(rows[row], 0, cells.question);
    ghost var answered := Put(labelled, 1, cells.answer);
    PutCell(table, row, 0, CellText(v, q.question));
    PutCell(table, row, 1, CellText(v, CellAnswer(q.answer)));
    UpdateTwice(rows, row, labelled, answered);
    if Strip(q.explanation) != "" {
      PutCell(table, row, 2, CellText(v, CellExplanation(q.explanation)));
    } else {
      PutCell(table, row, 2, "");
    }
    UpdateTwice(rows, row, answered, FillRow(rows[row], cells));
  }

  /** Writes `text` into cell `c` of the given row when the row has that
      many cells; a shorter row, and every other row, is left as it is. */
  method PutCell(table: Table, row: nat, c: nat, text: string)
    requires row < |table.rows|
    modifies table
    ensures table.rows == old(table.rows)[row := Put(old(table.rows)[row], c, text)]
  {
    if c < |table.rows[row]| {
      table.SetCell(row, c, text);
    } else {
      assert table.rows[row := table.rows[row]] == table.rows;
    }
  }

  /** Writing a row twice keeps the second write. */
  lemma UpdateTwice(rows: seq<seq<string>>, i: nat, first: seq<string>, second: seq<string>)
    requires i < |rows|
    ensures rows[i := first][i := second] == rows[i := second]
  {
  }

  /** One more blank row extends the padding by one. */
  lemma PaddedSnoc(rows: seq<seq<string>>, columns: nat, n: nat)
    requires n >= |rows|
    ensures Padded(rows, columns, n) + [Blank(columns)] == Padded(rows, columns, n + 1)
  {
    var extra := seq(n - |rows|, _ => Blank(columns));
    assert Padded(rows, columns, n) == rows + extra;
    assert seq(n + 1 - |rows|, _ => Blank(columns)) == extra + [Blank(columns)];
  }

  /** Writing record `i` changes row `i + 1` only, and that row had not
      been written before. */
  lemma FilledUpToStep(rows: seq<seq<string>>, cs: seq<Cells>, i: nat)
    requires i < |cs| < |rows|
    ensures FilledUpTo(rows, cs, i)[i + 1] == rows[i + 1]
    ensures FilledUpTo(rows, cs, i + 1) == FilledUpTo(rows, cs, i)[i + 1 := FillRow(rows[i + 1], cs[i])]
  {
  }

  /** The `k`-th cells are those of the `k`-th record. */
  lemma CellsForAt(v: Variant, qs: seq<Record>, k: nat)
    requires k < |qs|
    ensures CellsFor(v, qs)[k] == CellsOf(v, qs[k])
  {
  }

  /** The table after the fill: one row per record below the header, or
      as many rows as it had if that is more; the header row and the rows
      below the last record as they were (a table without rows gets a
      blank header row); row `k + 1` is the row it had, or a blank one,
      with record `k`'s cells written in. */
  lemma FilledLayout(rows: seq<seq<string>>, columns: nat, cs: seq<Cells>)
    ensures var f := Filled(rows, columns, cs);
            && |f| == (if |rows| > |cs| then |rows| else |cs| + 1)
            && (|rows| > 0 ==> f[0] == rows[0])
            && (|rows| == 0 ==> f[0] == Blank(columns))
            && (forall j :: |cs| < j < |rows| ==> f[j] == rows[j])
            && (forall k :: 0 <= k < |cs| ==>
                  f[k + 1] == FillRow(if k + 1 < |rows| then rows[k + 1] else Blank(columns), cs[k]))
  {
    var padded := Padded(rows, columns, |cs| + 1);
    forall j | |rows| <= j < |padded| ensures padded[j] == Blank(columns) {
    }
  }

  /** The cells of a written row: the row keeps its length, its first
      three cells hold the record's texts as far as the row has them, and
      every later cell is as it was. */
  lemma FillRowCells(row: seq<string>, cells: Cells)
    ensures var r := FillRow(row, cells);
            && |r| == |row|
            && (|row| > 0 ==> r[0] == cells.question)
            && (|row| > 1 ==> r[1] == cells.answer)
            && (|row| > 2 ==> r[2] == cells.explanation)
            && (forall c :: 3 <= c < |row| ==> r[c] == row[c])
  {
  }

  /** Filling the table a second time with the same records changes
      nothing more. */
  lemma FilledIdempotent(rows: seq<seq<string>>, columns: nat, cs: seq<Cells>)
    ensures Filled(Filled(rows, columns, cs), columns, cs) == Filled(rows, columns, cs)
  {
    var once := Filled(rows, columns, cs);
    var twice := Filled(once, columns, cs);
    FilledLayout(rows, columns, cs);
    FilledLayout(once, columns, cs);
    forall j | 0 <= j < |once| ensures twice[j] == once[j] {
      if 1 <= j <= |cs| {
        FillRowTwice(if j < |rows| then rows[j] else Blank(columns), cs[j - 1]);
      }
    }
  }

  /** Writing a record's cells twice is writing them once. */
  lemma FillRowTwice(row: seq<string>, cells: Cells)
    ensures FillRow(FillRow(row, cells), cells) == FillRow(row, cells)
  {
  }

  /** The answer cell of an answer line labelled `答案：` or `答案:` is the
      rest of the line stripped, as long as the rest holds no `答`. */
  lemma CellAnswerOfLabelled(rest: string)
    requires forall i :: 0 <= i < |rest| ==> rest[i] != '答'
    ensures CellAnswer("答案：" + rest) == Strip(rest)
    ensures CellAnswer("答案:" + rest) == Strip(rest)
  {
    RemoveBothLabels("答案：", "答案:", rest);
  }

  /** The explanation cell of an explanation labelled `解析：` or `解析:` is
      the rest stripped, as long as the rest holds no `解`. */
  lemma CellExplanationOfLabelled(rest: string)
    requires forall i :: 0 <= i < |rest| ==> rest[i] != '解'
    ensures CellExplanation("解析：" + rest) == Strip(rest)
    ensures CellExplanation("解析:" + rest) == Strip(rest)
  {
    RemoveBothLabels("解析：", "解析:", rest);
  }

  /** Removing a full-width-colon label and then its half-width twin from
      either label followed by `rest` leaves `rest`, when `rest` does not
      hold the labels' first character. */
  lemma RemoveBothLabels(full: string, half: string, rest: string)
    requires |full| == 3 && |half| == 3
    requires half[0] == full[0] && half[1] == full[1] && half[2] != full[2]
    requires half[1] != full[0] && half[2] != full[0]
    requires forall i :: 0 <= i < |rest| ==> rest[i] != full[0]
    ensures RemoveAll(RemoveAll(full + rest, full), half) == rest
    ensures RemoveAll(RemoveAll(half + rest, full), half) == rest
  {
    assert RemoveAll(rest, full) == rest;
    assert RemoveAll(rest, half) == rest;
    RemoveAllLeading(full, rest);
    RemoveAllLeading(half, rest);
    var s := half + rest;
    assert s[..3] != full by { assert s[2] == half[2]; }
    var tail := s[1..];
    forall i | 0 <= i < |tail| ensures tail[i] != full[0] {
      assert tail[i] == s[i + 1];
      if i < 2 {
        assert tail[i] == half[i + 1];
      } else {
        assert tail[i] == rest[i - 2];
      }
    }
    assert RemoveAll(tail, full) == tail;
    assert RemoveAll(s, full) == [s[0]] + tail;
    assert [s[0]] + tail == s;
  }

  /** The explanation cell is empty exactly when the explanation is blank
      or cleans to nothing. */
  lemma ExplanationCellEmpty(v: Variant, explanation: string)
    ensures ExplanationCell(v, explanation) == "" <==>
              AllSpace(explanation) || CellExplanation(explanation) == ""
  {
    if v == Doc && !AllSpace(explanation) {
      var t := CellExplanation(explanation);
      assert |DocRules.ProcessWingdings(t)| == |t|;
    }
  }

  /** The cells a record writes: under the legacy-document filler none
      holds `à`; under the plain filler the label is the question as
      parsed; the answer cell is trimmed under both. */
  lemma CellsOfShape(v: Variant, q: Record)
    ensures var c := CellsOf(v, q);
            && (v == Doc ==> 'à' !in c.question && 'à' !in c.answer && 'à' !in c.explanation)
            && (v == Plain ==> c.question == q.question && c.answer == CellAnswer(q.answer))
            && (c.answer == [] || (!IsSpace(c.answer[0]) && !IsSpace(c.answer[|c.answer| - 1])))
  {
  }
}
