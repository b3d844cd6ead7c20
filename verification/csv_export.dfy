/**
 * The text `handleTestExport` builds: a fixed header line, then one line
 * per selected row with four cells joined by commas and no quoting.
 * Unlike section 2 of RFC 4180, a cell holding a comma or a line break is
 * written raw, so such a cell cannot be read back. The lemmas below state
 * when the text reads back: a row splits into its four cells exactly when
 * no cell holds a comma, and the text splits into one line per row exactly
 * when no cell holds a line break; otherwise each stray comma or break
 * adds one piece.
 */
module CsvExport {
  import opened Text
  import opened CertRecords

  const HeaderCells: seq<string> := ["Country", "Certification Date", "Certified By", "Status"]
  /** "Country,Certification Date,Certified By,Status". */
  const HeaderLine: string := Join(HeaderCells, ',')
  const Header: string := HeaderLine + "\n"

  /** The header line reads back as the four column titles. */
  lemma HeaderReadsBack()
    ensures Split(HeaderLine, ',') == HeaderCells
  {
    assert forall k :: 0 <= k < 4 ==> ',' !in HeaderCells[k];
    SplitJoin(HeaderCells, ',');
  }

  lemma HeaderHasNoBreak()
    ensures '\n' !in HeaderLine
  {
    assert forall k :: 0 <= k < 4 ==> '\n' !in HeaderCells[k];
    JoinAvoids(HeaderCells, ',', '\n');
  }

  /** `row.Certification_Date__c ? <date part of the ISO form> : ''`; the date formatting is a parameter. */
  function ExportDate(row: CertRecord, dateOnly: string -> string): string
  {
    if row.certificationDate == "" then "" else dateOnly(row.certificationDate)
  }

  /** `row.Certified_By_Name || ''`. */
  function DisplayName(row: CertRecord): string
  {
    if row.certifiedByName.Some? then row.certifiedByName.value else ""
  }

  /** The four cells of one exported row, in column order. */
  function Cells(row: CertRecord, dateOnly: string -> string): (c: seq<string>)
    ensures |c| == 4
  {
    [row.country, ExportDate(row, dateOnly), DisplayName(row), row.status]
  }

  /** One row's line without its line break: the cells joined by `,`, no quoting. */
  function RowText(row: CertRecord, dateOnly: string -> string): string
  {
    Join(Cells(row, dateOnly), ',')
  }

  /** The row lines of the export, without their line breaks, in row order. */
  function RowTexts(rows: seq<CertRecord>, dateOnly: string -> string): (r: seq<string>)
    ensures |r| == |rows|
    ensures forall i :: 0 <= i < |rows| ==> r[i] == RowText(rows[i], dateOnly)
    decreases |rows|
  {
    if rows == [] then []
    else RowTexts(rows[..|rows| - 1], dateOnly) + [RowText(rows[|rows| - 1], dateOnly)]
  }

  /** The whole exported text: the header line, then every row line, each ended by a line break. */
  function CsvDocument(rows: seq<CertRecord>, dateOnly: string -> string): string
  {
    Header + JoinLines(RowTexts(rows, dateOnly))
  }

  /** Exporting one more row appends exactly that row's line and its break. */
  lemma CsvDocumentSnoc(rows: seq<CertRecord>, row: CertRecord, dateOnly: string -> string)
    ensures CsvDocument(rows + [row], dateOnly) == CsvDocument(rows, dateOnly) + RowText(row, dateOnly) + "\n"
  {
    assert (rows + [row])[..|rows|] == rows;
    var texts := RowTexts(rows, dateOnly);
    assert RowTexts(rows + [row], dateOnly) == texts + [RowText(row, dateOnly)];
    JoinLinesSnoc(texts, RowText(row, dateOnly));
  }

  /** No cell of `row` holds the character `c`. */
  predicate CellsFree(row: CertRecord, dateOnly: string -> string, c: char)
  {
    forall k :: 0 <= k < 4 ==> c !in Cells(row, dateOnly)[k]
  }

  /** No cell of any row holds the character `c`. */
  predicate NoCellHolds(rows: seq<CertRecord>, dateOnly: string -> string, c: char)
  {
    forall i :: 0 <= i < |rows| ==> CellsFree(rows[i], dateOnly, c)
  }

  lemma RowTextNoSep(row: CertRecord, dateOnly: string -> string, c: char)
    requires c != ','
    requires CellsFree(row, dateOnly, c)
    ensures c !in RowText(row, dateOnly)
  {
    JoinAvoids(Cells(row, dateOnly), ',', c);
  }

  /**
   * When no cell holds a line break, the export splits into the header
   * line, exactly one line per row in selection order, and the empty piece
   * after the final line break.
   */
  lemma DocumentLines(rows: seq<CertRecord>, dateOnly: string -> string)
    requires NoCellHolds(rows, dateOnly, '\n')
    ensures Split(CsvDocument(rows, dateOnly), '\n') == [HeaderLine] + (RowTexts(rows, dateOnly) + [""])
  {
    var texts := RowTexts(rows, dateOnly);
    forall k | 0 <= k < |texts|
      ensures '\n' !in texts[k]
    {
      RowTextNoSep(rows[k], dateOnly, '\n');
    }
    SplitJoinLines(texts);
    var body := JoinLines(texts);
    assert CsvDocument(rows, dateOnly) == HeaderLine + ['\n'] + body;
    HeaderHasNoBreak();
    SplitAfterPiece(HeaderLine, '\n', body);
  }

  /** The line breaks inside the cells of all the rows together. */
  function CellBreaks(rows: seq<CertRecord>, dateOnly: string -> string): nat
    decreases |rows|
  {
    if rows == [] then 0
    else CellBreaks(rows[..|rows| - 1], dateOnly) + CharTotal(Cells(rows[|rows| - 1], dateOnly), '\n')
  }

  /** The rows' part of the text holds one line break per row plus those inside the cells. */
  lemma {:induction false} BodyBreaks(rows: seq<CertRecord>, dateOnly: string -> string)
    ensures multiset(JoinLines(RowTexts(rows, dateOnly)))['\n'] == |rows| + CellBreaks(rows, dateOnly)
    decreases |rows|
  {
    if rows != [] {
      var init := rows[..|rows| - 1];
      var last := rows[|rows| - 1];
      BodyBreaks(init, dateOnly);
      JoinLinesSnoc(RowTexts(init, dateOnly), RowText(last, dateOnly));
      JoinCharCount(Cells(last, dateOnly), ',', '\n');
    }
  }

  /** No line break in any cell is the same as no line break counted in the cells. */
  lemma {:induction false} CellBreaksZero(rows: seq<CertRecord>, dateOnly: string -> string)
    ensures CellBreaks(rows, dateOnly) == 0 <==> NoCellHolds(rows, dateOnly, '\n')
    decreases |rows|
  {
    if rows != [] {
      var init := rows[..|rows| - 1];
      CellBreaksZero(init, dateOnly);
      CharTotalZero(Cells(rows[|rows| - 1], dateOnly), '\n');
      assert forall i :: 0 <= i < |init| ==> init[i] == rows[i];
    }
  }

  /**
   * The export splits into the header, one line per row, the empty piece
   * after the final break, and one extra line per line break inside a
   * cell; so it has exactly one line per row if and only if no cell holds
   * a line break.
   */
  lemma DocumentLineCount(rows: seq<CertRecord>, dateOnly: string -> string)
    ensures |Split(CsvDocument(rows, dateOnly), '\n')| == |rows| + 2 + CellBreaks(rows, dateOnly)
    ensures |Split(CsvDocument(rows, dateOnly), '\n')| == |rows| + 2 <==> NoCellHolds(rows, dateOnly, '\n')
  {
    HeaderHasNoBreak();
    BodyBreaks(rows, dateOnly);
    CellBreaksZero(rows, dateOnly);
    SplitCount(CsvDocument(rows, dateOnly), '\n');
  }

  /**
   * A row's line reads back as its four cells exactly when no cell holds a
   * comma; otherwise it reads back as four cells plus one per comma inside
   * the values (the raw join of the source, without RFC 4180 quoting).
   */
  lemma RowReadsBack(row: CertRecord, dateOnly: string -> string)
    ensures Split(RowText(row, dateOnly), ',') == Cells(row, dateOnly)
        <==> CellsFree(row, dateOnly, ',')
    ensures |Split(RowText(row, dateOnly), ',')| == 4 + CharTotal(Cells(row, dateOnly), ',')
  {
    var cs := Cells(row, dateOnly);
    JoinSepCount(cs, ',');
    CharTotalZero(cs, ',');
    SplitCount(RowText(row, dateOnly), ',');
    if CellsFree(row, dateOnly, ',') {
      SplitJoin(cs, ',');
    }
  }
}
