# Word-Form-Filler answer-key parser and table fill, in Dafny

Word-Form-Filler reads the text of an exam answer key and turns it into
records of the form (question label, answer, explanation). It then writes
those records, one per row, into the first table of a target Word document.
This project models that core and proves what it does.

The core covers three things:

- **The primary parser.** It has two copies:
  - the one in `word_form_filler_doc.py`, called the *Doc* variant here;
  - the one in `word_form_filler.py`, called the *Plain* variant here. `test_parser.py` repeats it verbatim.

  It splits the text into lines, strips each one and skips blank ones. Each answer line closes the open record and opens a new one, labelled `1.`, `2.`, and so on. An explanation line sets the explanation. Other lines are joined to a started explanation with one space.
- **The fallback parser.** It is the same in all three files. A record opens on every line starting with `<digits>.`, and the whole line is the record's label. The last half-width answer line `答案:(X)` of the record is its answer. Explanation lines work as above. Nothing in the program calls it: `process_files` calls `parse_source_document` (word_form_filler.py:270, word_form_filler_doc.py:445), which calls only the primary parser (word_form_filler.py:110, word_form_filler_doc.py:124), and so does `test_parser.py`'s `main`, through `parse_source_document_test` (test_parser.py:25, :128). It is modelled because it is defined alongside the primary parser with the same record shape.
- **The table fill** (`fill_target_document`). Rows are added until the table has one row per record plus the header row. Record `i` goes into row `i + 1`: the label, the answer without its `答案：`/`答案:` label, and the explanation without its `解析：`/`解析:` label, or the empty text when it is blank. Each is written only if the row has that cell. The Doc filler writes every text through the `à` → `→` glyph substitution.

Layout, module by module:

- `strings.dfy` (`Strings`): Python's `str.strip`, `split('\n')` and `str.replace(p, '')`, and the decimal label `f"{n}."`.
- `patterns.dfy` (`Patterns`): the pieces of the regular expressions as deterministic matchers.
- Line rules of each grammar:
  - `doc_rules.dfy` (`DocRules`) for the Doc variant, including `_clean_answer` and `_process_wingdings_text`;
  - `plain_rules.dfy` (`PlainRules`) for the Plain variant;
  - `fallback_rules.dfy` (`FallbackRules`) for the fallback grammar.
- `lines.dfy` (`Lines`):
  - the canonical lines, which are the stripped, non-blank lines, each tagged once with its role;
  - the explanation a run of lines builds;
  - the positions of the record-opening lines.
- The primary parser:
  - `primary_spec.dfy` (`PrimarySpec`) is the parser's step function and its fold. It also gives an independent reference reading (record `k` is built from the `k`-th answer line and the lines up to the next one) and proves the fold equal to it.
  - `primary_parser.dfy` (`PrimaryParser`) is the parser's loop, proved equal to the fold.
  - `primary_props.dfy` (`PrimaryProps`) holds what the parsed records satisfy.
- The fallback parser has the same three files: `fallback_spec.dfy` (`FallbackSpec`), `fallback_parser.dfy` (`FallbackParser`) and `fallback_props.dfy` (`FallbackProps`).
- `table_fill.dfy` (`TableFill`): the table as a class whose rows the fill changes in place. The fill methods are proved to produce the rows `Filled` describes, and lemmas state the layout and the cell texts.
- `fill_props.dfy` (`FillProps`): what the filled table holds when the records come from the parsers.

Behaviour worth noting, each proved:

- **Doc answer lines.** The Doc variant does not take `答案：（Ｃ）` for an answer line, because its patterns want an ASCII letter after the optional parenthesis or a leading ordinal. The Plain variant does take it (`DocRules.FullWidthChoiceNotRecognised`, `PlainRules.BothWidthsRecognised`).
- **Fallback records.** A fallback record keeps the whole numbered line, such as `1. stem text`, as its label, not just `1.`. It keeps the whole answer line `答案:(A)` as its answer. That label would be removed only when the table is filled, which would leave `(A)` in the cell (`TableFill.CellAnswerOfLabelled`). As the program is written, fallback records never reach the fill, because the fallback parser has no caller.
- **Spaced answer labels.** The Plain parser takes `答案 : (A)` as an answer line and keeps it whole (word_form_filler.py:133-135). The fill removes only `答案：` and `答案:`, so that cell shows the whole line `答案 : (A)` (`FillProps.SpacedAnswerLabelKept`).

## Model

| member | source | states |
|---|---|---|
| Strings.Strip | word_form_filler_doc.py:222-224 | the stripped line is no longer than the line, has no whitespace at either end, and is empty exactly when the line is all whitespace |
| Strings.StripUnique | word_form_filler.py:128 | whitespace around a trimmed text strips to exactly that text |
| Strings.StripIdempotent | word_form_filler.py:128 | stripping a stripped line changes nothing |
| Strings.SplitLines | word_form_filler.py:121 | `text.split('\n')` yields at least one line, and no line holds a newline |
| Strings.JoinSplitLines | word_form_filler.py:121 | joining the split lines with newlines gives back the text |
| Strings.SplitLinesOfBlank | test_parser.py:36-45 | every line of a whitespace-only text is whitespace only |
| Strings.NatToStringDigits | word_form_filler.py:139 | the decimal form of a number is non-empty, all digits and without leading zero |
| Strings.DecimalRoundTrip | word_form_filler.py:139 | reading the decimal form of `n` back gives `n` |
| Strings.NatToString | word_form_filler.py:139 | `str(n)`; `NatToStringDigits` and `DecimalRoundTrip` state it |
| Strings.Label | word_form_filler.py:139 | the label `f"{n}."`; `LabelShape` and `LabelInjective` state it |
| Strings.LabelShape | word_form_filler.py:139 | the label `f"{n}."` is digits followed by one period |
| Strings.LabelInjective | word_form_filler_doc.py:240-246 | different record numbers give different labels |
| Strings.RemoveAll | word_form_filler.py:229 | `replace(p, '')` never lengthens a text, only drops characters of it, and leaves a text without `p`'s first character unchanged |
| Strings.RemoveAllAbsent | word_form_filler.py:229 | text in which the pattern occurs nowhere is left unchanged |
| Strings.RemoveAllFirst | word_form_filler.py:229 | in `u + p + w` with no occurrence starting inside `u`, the text `u` before the first occurrence is kept, that occurrence is removed and removal goes on in `w` |
| Strings.RemoveAllLeading | word_form_filler.py:229 | a leading occurrence of the pattern is removed and removal continues after it |
| Patterns.SkipDigits | word_form_filler_doc.py:231 | greedy `\d*` passes over digits only and stops at a non-digit or the end |
| Patterns.LabelEnd | word_form_filler_doc.py:231-233 | a matched `答案\s*[：:]\s*` (or `解析…`) starts with the word and ends inside the line |
| Patterns.OrdinalEnd | word_form_filler.py:174 | a matched `^\d+\.` ends just after a period |
| DocRules.IsAnswerLine | word_form_filler_doc.py:231-233 | a Doc answer line: an ordinal followed by the answer label at the start, or a single-choice or a multi-part answer anywhere in the line; `FullWidthChoiceNotRecognised` gives instances |
| DocRules.IsExplanationLine | word_form_filler_doc.py:249 | a Doc explanation line: `解析\s*[：:]` anywhere in the line |
| DocRules.ExplanationText | word_form_filler_doc.py:252 | the result is a suffix of the line; a line without a leading label is kept, and what remains after one starts with a non-space |
| DocRules.ExplanationTextOfLabelled | word_form_filler_doc.py:252 | `解析<ws><colon><ws>X` leaves exactly `X`, for either colon |
| DocRules.DropOrdinal | word_form_filler_doc.py:271 | the result is a suffix of the answer, and an answer without a leading ordinal is kept; `DropNumberedOrdinal` states what is cut |
| DocRules.DropNumberedOrdinal | word_form_filler_doc.py:271 | `<digits>.<ws>X`, with `X` starting with a non-space, leaves exactly `X` |
| DocRules.DropAnswerLabel | word_form_filler_doc.py:274 | the result is a suffix of the answer, and an answer without a leading label is kept |
| DocRules.DropLabelledAnswer | word_form_filler_doc.py:274 | `答案<ws><colon><ws>X` leaves exactly `X`, for either colon |
| DocRules.CleanAnswer | word_form_filler_doc.py:268-276 | the cleaned answer is no longer than the answer line and has no whitespace at either end |
| DocRules.CleanNumberedAnswer | word_form_filler_doc.py:268-276 | `<digits>.<ws>答案<ws><colon><ws>X` cleans to `X` stripped, for either colon |
| DocRules.CleanPlainAnswer | word_form_filler_doc.py:268-276 | `答案<ws><colon><ws>X` without an ordinal cleans to `X` stripped, so `答案：(Ｃ)` gives `(Ｃ)` |
| DocRules.LabelEndAfterColon | word_form_filler_doc.py:274 | an answer or explanation label ends after its colon and the whitespace following it |
| DocRules.ProcessWingdings | word_form_filler_doc.py:304-321 | the result has the text's length, holds no `à`, and at every position has `→` where the text has `à` and the text's character elsewhere |
| DocRules.ProcessWingdingsIdempotent | word_form_filler_doc.py:304-321 | applying the substitution twice equals applying it once |
| DocRules.ProcessWingdingsKeepsPlainText | word_form_filler_doc.py:309-310 | text without `à` passes through unchanged |
| DocRules.FullWidthChoiceNotRecognised | word_form_filler_doc.py:231-233 | `答案：（Ｃ）` is not a Doc answer line, while `答案：(C)` is |
| PlainRules.IsAnswerLine | word_form_filler.py:135 | a Plain answer line: the line starts with `答案\s*[：:]\s*` and an opening parenthesis of either width; `BothWidthsRecognised` gives instances |
| PlainRules.IsExplanationLine | word_form_filler.py:147 | a Plain explanation line starts with `解析：` |
| PlainRules.AnswerLineStartsWithLabel | word_form_filler.py:135 | a Plain answer line always begins with `答案` |
| PlainRules.BothWidthsRecognised | word_form_filler.py:135 | `答案：（Ｃ）`, `答案:(C)` and `答案 : (A)` are all Plain answer lines |
| FallbackRules.IsNumberedLine | word_form_filler.py:174 | a numbered line, which opens a fallback record; characterised by `NumberedLineIff` |
| FallbackRules.NumberedLineIff | word_form_filler.py:174 | a line is numbered exactly when it starts with one or more digits and a period |
| FallbackRules.IsAnswerLine | word_form_filler.py:185 | a fallback answer line: `答案\s*:\s*\([A-D]\)` anywhere, half-width only; `HalfWidthOnly` gives instances |
| FallbackRules.IsExplanationLine | word_form_filler.py:187 | a fallback explanation line: `解析\s*:` anywhere |
| FallbackRules.HalfWidthOnly | word_form_filler.py:185 | `答案:(B)` is a fallback answer line and `答案：(B)` is not |
| Lines.Classify | word_form_filler_doc.py:231-254 | the primary grammars never yield a fallback answer line, and opening lines are never empty |
| Lines.Tag | word_form_filler_doc.py:231-254 | a tagged line keeps its text |
| Lines.ExplanationStep | word_form_filler_doc.py:249-254 | the explanation of one more line is the previous explanation advanced by that line |
| Lines.LaterMarkerReplaces | word_form_filler_doc.py:249-252 | a later explanation line replaces the explanation rather than extending it |
| Lines.PlainLineJoinsWithOneSpace | word_form_filler.py:149-150 | another line is appended after exactly one space when an explanation has started, and is dropped otherwise |
| Lines.ExplanationStartsWithNote | test_parser.py:63-66 | a non-empty explanation starts with the text that its explanation line set |
| Lines.JoinPlainExtends | word_form_filler.py:149-150 | appending continuation lines only extends the explanation |
| Lines.CanonicalTagged | word_form_filler.py:127-130 | the canonical lines are non-blank, stripped and tagged by their own text |
| Lines.CanonicalFromRaws | word_form_filler.py:127-130 | every canonical line is one of the raw lines, stripped |
| Lines.BlankTextHasNoLines | word_form_filler.py:127-130 | whitespace-only text has no canonical lines |
| Lines.OpenersUpToComplete | word_form_filler.py:135-146 | every opening line is listed among the record positions |
| Lines.Openers | word_form_filler.py:135-146 | the record positions are opening lines, in strictly increasing order |
| Lines.SegmentHasNoOpener | word_form_filler.py:135-146 | a record's lines run up to the next opening line and contain none |
| PrimarySpec.StepLine | word_form_filler_doc.py:231-254 | one canonical line's effect on the parser state; `NextOpenerStep`, `PlainLineStep` and `StepIsFold` state it |
| PrimarySpec.Parse | word_form_filler_doc.py:211-266 | the primary parse of copy `v`; `ParseWithIsReference` and `PrimaryProps.ParseRecords` state its records |
| PrimarySpec.RulesOfWellFormed | word_form_filler_doc.py:231-254 | the tagging of either primary copy keeps text and never yields a fallback answer line |
| PrimarySpec.StepIsFold | word_form_filler.py:127-150 | one raw line advances the parser state exactly as folding its canonical line does, and a blank line leaves it unchanged |
| PrimarySpec.FoldExpected | word_form_filler_doc.py:217-254 | after any prefix of the lines the state is the reference one: the last answer line so far is open with its explanation, and one record is done per earlier answer line |
| PrimarySpec.NextOpenerStep | word_form_filler_doc.py:237-248 | an answer line met while a record is open emits that record and opens a new one with the explanation reset |
| PrimarySpec.PlainLineStep | word_form_filler_doc.py:249-254 | an explanation line or another line only advances the open record's explanation |
| PrimarySpec.FinishExpected | word_form_filler_doc.py:256-264 | the trailing open record is emitted at the end |
| PrimarySpec.ParseWithIsReference | word_form_filler_doc.py:211-266 | the parse of any text equals the reference reading of its canonical lines |
| PrimaryParser.ParseQuestions | word_form_filler_doc.py:211-266 | the loop over the lines returns exactly the specified parse |
| PrimaryParser.TakeLine | word_form_filler.py:127-150 | one pass of the loop body is one step of the parser |
| PrimaryProps.ParseIsReference | test_parser.py:34-75 | each copy's parse is the reference reading of its canonical lines |
| PrimaryProps.ParseRecords | word_form_filler_doc.py:211-266 | there is one record per answer line; record `k` is labelled `k+1.`, holds its answer line (cleaned in the Doc copy) and the explanation of the lines up to the next answer line |
| PrimaryProps.LinesOfClassified | word_form_filler_doc.py:231-254 | a canonical line opens a record exactly when it is an answer line, and is an explanation line exactly when it is not an answer line and carries an explanation label; an explanation line starts the explanation with the line minus its leading label in the Doc copy and with the whole line in the Plain copy (word_form_filler.py:147-148) |
| PrimaryProps.EveryAnswerLineOpens | word_form_filler.py:135-146 | a line opens a record if and only if it is an answer line |
| PrimaryProps.ParseLabels | word_form_filler_doc.py:217-246 | the labels are `1.`, `2.`, … in order, whatever numbers the text holds |
| PrimaryProps.ParseLabelsDistinct | test_parser.py:38-73 | no two records share a label |
| PrimaryProps.DocAnswersTrimmed | word_form_filler_doc.py:240 | each Doc answer is its answer line cleaned, with no whitespace at either end |
| PrimaryProps.PlainAnswersWhole | word_form_filler.py:145 | each Plain answer is one of the text's own lines, stripped and whole, that passes the answer-line test and begins with `答案` |
| PrimaryProps.BlankTextNoRecords | test_parser.py:42-45 | whitespace-only text yields no records |
| PrimaryProps.NoAnswerLineNoRecords | word_form_filler_doc.py:249-256 | text without an answer line yields no records, whatever else it holds |
| FallbackSpec.StepLine | word_form_filler.py:174-190 | one canonical line's effect on the fallback state; `NextOpenerStep`, `InnerLineStep` and `StepIsFold` state it |
| FallbackSpec.Parse | word_form_filler.py:162-198 | the fallback parse; `ParseWithIsReference` and `FallbackProps.ParseRecords` state its records |
| FallbackSpec.LastAnswer | word_form_filler.py:185-186 | a record's answer is empty or one of its answer lines |
| FallbackSpec.LastAnswerIsLast | word_form_filler.py:185-186 | with no answer line the answer is empty; otherwise it is an answer line that no later answer line follows, so a later answer overrides an earlier one; with non-empty answer lines it is empty exactly when there is none |
| FallbackSpec.StepIsFold | word_form_filler.py:170-190 | one raw line advances the fallback state exactly as folding its canonical line does |
| FallbackSpec.FoldExpected | word_form_filler_doc.py:335-355 | after any prefix of the lines the state is the reference one: the last numbered line open with its last answer and explanation |
| FallbackSpec.NextOpenerStep | word_form_filler.py:174-183 | a numbered line emits the open record and opens a new one with no answer and no explanation |
| FallbackSpec.InnerLineStep | word_form_filler.py:185-190 | an answer line replaces the answer, and other lines only advance the explanation |
| FallbackSpec.FinishExpected | word_form_filler.py:191-196 | the trailing open record is emitted at the end |
| FallbackSpec.ParseWithIsReference | word_form_filler_doc.py:327-363 | the fallback parse equals the reference reading of the canonical lines |
| FallbackParser.ParseFallback | test_parser.py:77-115 | the loop over the lines returns exactly the specified fallback parse |
| FallbackParser.TakeLine | word_form_filler.py:170-190 | one pass of the loop body is one step of the fallback parser |
| FallbackProps.TaggerIsFallbackTagging | word_form_filler.py:187-188 | a fallback explanation line starts the explanation with the whole line |
| FallbackProps.ParseIsReference | test_parser.py:77-115 | the fallback parse is the reference reading of its canonical lines |
| FallbackProps.ParseRecords | word_form_filler_doc.py:327-363 | there is one record per numbered line; record `k` keeps that whole line, the last answer line after it and the explanation of the lines up to the next numbered line |
| FallbackProps.LinesOfClassified | test_parser.py:90-107 | a line opens a record exactly when numbered; it is an answer line exactly when not numbered and matching the answer pattern, so the answer test goes before the explanation test |
| FallbackProps.EveryNumberedLineOpens | test_parser.py:90-100 | a line opens a record if and only if it is numbered |
| FallbackProps.QuestionsAreNumberedLines | word_form_filler_doc.py:339-346 | each label is one of the text's own lines, stripped and whole, and it is numbered |
| FallbackProps.AnswersAreAnswerLines | word_form_filler.py:185-186 | each answer is empty or one of the text's own lines, stripped and whole, that passes the half-width answer-line test |
| FallbackProps.ExplanationsStartWithLabel | test_parser.py:104-107 | each explanation is empty or begins with one of the text's own lines, stripped and whole, that passes the explanation-line test |
| FallbackProps.BlankTextNoRecords | word_form_filler.py:170-173 | whitespace-only text yields no records |
| FallbackProps.NoNumberedLineNoRecords | word_form_filler.py:191-196 | text without a numbered line yields no records, whatever answer lines it holds |
| TableFill.Table.AddRow | word_form_filler.py:217 | a new last row of empty cells, one per column; the other rows unchanged |
| TableFill.Table.SetCell | word_form_filler.py:226 | exactly one cell takes the text |
| TableFill.FillTargetDocument | word_form_filler_doc.py:372-376 | a document without a table is left alone; otherwise its first table ends as `Filled` |
| TableFill.FillTable | word_form_filler.py:211-239 | the table's rows end exactly as `Filled` says for the records' cell texts |
| TableFill.PadTable | word_form_filler.py:213-220 | rows are added, blank, until there are as many as required |
| TableFill.AddBlankRow | word_form_filler_doc.py:382-384 | the added row ends with all its cells empty |
| TableFill.WriteRecords | word_form_filler_doc.py:387-406 | record `i` is written into row `i + 1`, for every record in order |
| TableFill.WriteRow | word_form_filler_doc.py:390-404 | the row takes the record's label, cleaned answer and explanation cells as far as it has cells, and no other row changes |
| TableFill.CellAnswer | word_form_filler.py:229 | the answer cell's text is no longer than the answer and has no whitespace at either end; `CellAnswerOfLabelled` states what is cut |
| TableFill.CellExplanation | word_form_filler.py:234 | the explanation cell's text is no longer than the explanation and has no whitespace at either end; `CellExplanationOfLabelled` states what is cut |
| TableFill.ExplanationCell | word_form_filler.py:233-238 | the explanation cell is no longer than the explanation; `ExplanationCellEmpty` states when it is empty |
| TableFill.Padded | word_form_filler.py:213-218 | padding to `n` rows keeps the old rows and adds blank ones up to `n` |
| TableFill.Filled | word_form_filler.py:211-239 | the table filled with the records' cells; `FilledLayout` states its layout |
| TableFill.CellsFor | word_form_filler.py:222 | one set of cell texts per record |
| TableFill.FilledLayout | word_form_filler_doc.py:378-392 | the filled table has max(old rows, records + 1) rows; the header row and the rows past the last record are unchanged; row `k + 1` is its old row, or a blank one, with record `k` written in |
| TableFill.FillRowCells | word_form_filler.py:225-239 | a written row keeps its length, holds the label, answer and explanation in its first three cells as far as it has them, and keeps every later cell |
| TableFill.FilledIdempotent | word_form_filler.py:213-239 | filling the filled table again with the same records changes nothing |
| TableFill.CellAnswerOfLabelled | word_form_filler.py:229 | the answer cell of `答案：X` or `答案:X` is `X` stripped when `X` holds no `答` |
| TableFill.CellExplanationOfLabelled | word_form_filler.py:234 | the explanation cell of `解析：X` or `解析:X` is `X` stripped when `X` holds no `解` |
| TableFill.ExplanationCellEmpty | word_form_filler.py:233-238 | the explanation cell is empty exactly when the explanation is blank or cleans to nothing |
| TableFill.CellsOfShape | word_form_filler_doc.py:391-400 | Doc cells hold no `à`; Plain cells hold the label and the cleaned answer as they are; the answer cell is trimmed |
| FillProps.LabelCellText | word_form_filler_doc.py:391-392 | a label `n.` is written unchanged by both fillers |
| FillProps.PrimaryLabelsInFirstColumn | word_form_filler_doc.py:387-392 | after filling with the primary parse, there is a row below the header for every record, and row `j`'s first cell, when it has one, is `j.` |
| FillProps.SpacedAnswerLabelKept | word_form_filler.py:229 | the answer cell of `答案 : (A)` is the whole line, because only `答案：` and `答案:` are removed |

## Left out

- The Tkinter window, its file dialogs, `process_files` and the log messages: user interface and side effects only.
- Reading a `.doc`/`.docx` source (`_read_doc_file` and the conversion tools it calls) and the text handed to the parsers. The parsers take the text as a parameter.
- Loading and saving the target document with python-docx, and the output file name `_已填寫.docx`. A table is modelled as its rows of cell texts, and the documents' tables as a sequence.
- The font setting in `_set_cell_text_with_font`, and its fallback that writes the raw text when the font library raises an exception. The model writes the substituted text, which is the normal path.
- The `errors='ignore'` UTF-8 round trip in `_process_wingdings_text`. Dafny strings hold only Unicode scalar values, on which the round trip is the identity.
- Python's regular-expression engine. Each pattern is a deterministic matcher over characters.
  - `\s` is Python's whitespace set.
  - `\d` is the ASCII and full-width digits. Python also accepts the other Unicode decimal digits.
- `test_parser.py`'s `main` and `parse_source_document_test`: file reading and printing.
- A path from the fallback parser to the fill: the program never calls `_parse_with_fallback` or `parse_with_fallback`, so the model relates the fill only to the primary parser (`FillProps`). The fallback parser is modelled on its own.
- Merged cells: python-docx can return the same cell twice in `row.cells`. The model treats a row's cells as distinct.
- The exception handler around the whole fill.
- The difference between `None` and `""` in the parsers' `current_answer`, `current_question` and `current_explanation`. The model uses `""` for both, because the source tests these variables only for truthiness and answer and numbered lines are never empty.
- `DocRules.CleanNumberedAnswer`: it is stated for an answer text `X` that begins with a non-space. Whitespace before `X` is part of the label match anyway.
- `DocRules.CleanPlainAnswer`: the same, for an answer text `X` that begins with a non-space.
- `DocRules.ExplanationTextOfLabelled`: the same, for an explanation text `X` that begins with a non-space.
