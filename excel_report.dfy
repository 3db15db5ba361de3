/**
 * `create_excel_file`: the "Aegis Report" sheet.  Row 1 holds the report date, row 2 the
 * sectional scheme number, row 3 the column headers, and entry `i` of the data goes to row
 * `i + 4`; each of columns A to E is then sized to its longest text, clamped to [10, 20].
 * The sheet is a sequence of rows of five cells, an empty cell being "".  Fonts, fills, borders,
 * merges, row heights and saving the workbook are left out; the clock is a parameter.
 */
module ExcelReport {
  import opened Wrappers
  import opened Text

  /** The Python values the function is called with, as far as its checks tell them apart. */
  datatype PyValue =
    | Str(text: string)
    | Dict(fields: map<string, string>)
    | List(items: seq<PyValue>)
    | OtherValue

  datatype ReportError = ValueError(message: string)

  const SchemeNotString: string := "scheme_number must be a string"
  const DataNotList: string := "data must be a list of dictionaries"

  /** The sheet written and the widths given to columns A to E. */
  datatype Report = Report(fileName: string, rows: seq<seq<string>>, widths: seq<nat>)

  const Columns: nat := 5
  const EmptyRow: seq<string> := ["", "", "", "", ""]
  const Headers: seq<string> := ["ID", "Name", "Phone 1", "Phone 2", "Phone 3"]
  /** The keys read from each entry, column by column. */
  const Keys: seq<string> := ["ID", "Name", "Phone1", "Phone2", "Phone3"]

  /** Every row has one cell for each of columns A to E. */
  predicate Rectangular(rows: seq<seq<string>>)
  {
    forall k :: 0 <= k < |rows| ==> |rows[k]| == Columns
  }

  /** The scheme number with every space and colon made an underscore. */
  function SafeSchemeNumber(scheme: string): (r: string)
    ensures |r| == |scheme|
    ensures forall k :: 0 <= k < |r| ==> r[k] != ' ' && r[k] != ':'
    ensures forall k :: 0 <= k < |r| ==> (scheme[k] == ' ' || scheme[k] == ':' ==> r[k] == '_')
    ensures forall k :: 0 <= k < |r| ==> (scheme[k] != ' ' && scheme[k] != ':' ==> r[k] == scheme[k])
  {
    ReplaceChar(ReplaceChar(scheme, ' ', '_'), ':', '_')
  }

  /** The file name used when none is given: the safe scheme number, the time stamp, ".xlsx". */
  function DefaultFileName(scheme: string, stamp: string): (r: string)
    ensures StartsWith(r, SafeSchemeNumber(scheme) + "_")
    ensures EndsWith(r, ".xlsx")
  {
    var safe := SafeSchemeNumber(scheme);
    assert (safe + "_" + stamp + ".xlsx")[..|safe + "_"|] == safe + "_";
    safe + "_" + stamp + ".xlsx"
  }

  function Banner(date: string): string
  {
    "Report Date: " + date
  }

  /** A text written in column A of a row whose other cells stay empty (A1 and A2 are merged to E). */
  function TitleRow(text: string): (r: seq<string>)
    ensures |r| == Columns && r[0] == text
    ensures forall c :: 1 <= c < Columns ==> r[c] == ""
  {
    [text, "", "", "", ""]
  }

  /** `entry.get(key, "")`. */
  function Get(fields: map<string, string>, key: string): string
  {
    if key in fields then fields[key] else ""
  }

  /** The row an entry fills: its five fields for a dict, nothing for anything else. */
  function EntryRow(entry: PyValue): (r: seq<string>)
    ensures |r| == Columns
  {
    match entry
    case Dict(fields) => [Get(fields, "ID"), Get(fields, "Name"), Get(fields, "Phone1"),
                          Get(fields, "Phone2"), Get(fields, "Phone3")]
    case _ => EmptyRow
  }

  /** What a dict entry puts in each column: the value under that column's key, or "" when absent. */
  lemma EntryRowCells(fields: map<string, string>, c: nat)
    requires c < Columns
    ensures Keys[c] in fields ==> EntryRow(Dict(fields))[c] == fields[Keys[c]]
    ensures Keys[c] !in fields ==> EntryRow(Dict(fields))[c] == ""
  {
  }

  /** An entry that is not a dict leaves its row empty. */
  lemma NonDictRowEmpty(entry: PyValue)
    requires !entry.Dict?
    ensures forall c :: 0 <= c < Columns ==> EntryRow(entry)[c] == ""
  {
  }

  /** The sheet: the two title rows, the headers, then one row per entry in order. */
  function Sheet(scheme: string, entries: seq<PyValue>, date: string): (r: seq<seq<string>>)
    ensures Rectangular(r)
  {
    [TitleRow(Banner(date)), TitleRow(scheme), Headers]
      + seq(|entries|, i requires 0 <= i < |entries| => EntryRow(entries[i]))
  }

  /** Row numbers as the spreadsheet counts them from 1: entry `i` lands on row `i + 4`. */
  lemma SheetLayout(scheme: string, entries: seq<PyValue>, date: string)
    ensures |Sheet(scheme, entries, date)| == 3 + |entries|
    ensures Sheet(scheme, entries, date)[0][0] == "Report Date: " + date
    ensures Sheet(scheme, entries, date)[1][0] == scheme
    ensures Sheet(scheme, entries, date)[2] == ["ID", "Name", "Phone 1", "Phone 2", "Phone 3"]
    ensures forall i :: 0 <= i < |entries| ==> Sheet(scheme, entries, date)[i + 4 - 1] == EntryRow(entries[i])
  {
  }

  /** The longest text in column `c` (0 when the column is empty). */
  function ColumnMax(rows: seq<seq<string>>, c: nat): nat
    requires Rectangular(rows) && c < Columns
  {
    if rows == [] then 0
    else
      var m := ColumnMax(rows[..|rows| - 1], c);
      var n := |Last(rows)[c]|;
      if n > m then n else m
  }

  /** ColumnMax is the length of the longest cell of the column: every cell fits, and one reaches it. */
  lemma {:induction false} ColumnMaxIsMax(rows: seq<seq<string>>, c: nat)
    requires Rectangular(rows) && c < Columns
    ensures forall k :: 0 <= k < |rows| ==> |rows[k][c]| <= ColumnMax(rows, c)
    ensures ColumnMax(rows, c) == 0 || exists k :: 0 <= k < |rows| && |rows[k][c]| == ColumnMax(rows, c)
  {
    if rows != [] {
      var init := rows[..|rows| - 1];
      ColumnMaxIsMax(init, c);
      assert forall k :: 0 <= k < |init| ==> init[k] == rows[k];
    }
  }

  /** `min(max(longest + 4, 10), 20)`. */
  function Width(longest: nat): (w: nat)
    ensures 10 <= w <= 20
    ensures w == 20 <==> longest >= 16
    ensures w == 10 <==> longest <= 6
    ensures 10 < w < 20 ==> w == longest + 4
  {
    var padded := if longest + 4 > 10 then longest + 4 else 10;
    if padded < 20 then padded else 20
  }

  /**
   * The width loop: for each column, the longest non-empty cell text is found by a scan down the
   * column, and the width clamped from it.
   */
  method ColumnWidths(rows: seq<seq<string>>) returns (widths: seq<nat>)
    requires Rectangular(rows)
    ensures |widths| == Columns
    ensures forall c :: 0 <= c < Columns ==> widths[c] == Width(ColumnMax(rows, c))
  {
    widths := [];
    for c := 0 to Columns
      invariant |widths| == c
      invariant forall d :: 0 <= d < c ==> widths[d] == Width(ColumnMax(rows, d))
    {
      var maxLength := 0;
      for r := 0 to |rows|
        invariant maxLength == ColumnMax(rows[..r], c)
      {
        assert rows[..r + 1][..r] == rows[..r];
        var value := rows[r][c];
        if value != "" && |value| > maxLength {
          maxLength := |value|;
        }
      }
      assert rows[..|rows|] == rows;
      widths := widths + [Width(maxLength)];
    }
  }

  /** Column A holds the report-date banner, so it always gets the widest setting. */
  lemma BannerWidensColumnA(scheme: string, entries: seq<PyValue>, date: string)
    requires |date| >= 3
    ensures Width(ColumnMax(Sheet(scheme, entries, date), 0)) == 20
  {
    var rows := Sheet(scheme, entries, date);
    ColumnMaxIsMax(rows, 0);
    assert |rows[0][0]| == 13 + |date|;
  }

  /**
   * `create_excel_file`: a scheme number that is not a string, or data that is not a list, is
   * refused with its ValueError before anything is written; otherwise the rows are written one
   * by one (an entry that is not a dict is skipped, its row left empty) and the columns sized.
   * `stamp` and `date` are the two renderings of the current time.
   */
  method CreateExcelFile(schemeNumber: PyValue, data: PyValue, outputFile: Option<string>,
                         stamp: string, date: string)
    returns (r: Result<Report, ReportError>)
    ensures !schemeNumber.Str? ==> r == Failure(ValueError(SchemeNotString))
    ensures schemeNumber.Str? && !data.List? ==> r == Failure(ValueError(DataNotList))
    ensures schemeNumber.Str? && data.List? ==>
              && r.Success?
              && r.value.fileName == (if outputFile.Some? then outputFile.value
                                      else DefaultFileName(schemeNumber.text, stamp))
              && r.value.rows == Sheet(schemeNumber.text, data.items, date)
              && |r.value.widths| == Columns
              && forall c :: 0 <= c < Columns ==> r.value.widths[c] == Width(ColumnMax(r.value.rows, c))
  {
    if !schemeNumber.Str? {
      return Failure(ValueError(SchemeNotString));
    }
    if !data.List? {
      return Failure(ValueError(DataNotList));
    }
    var scheme, entries := schemeNumber.text, data.items;
    var fileName := if outputFile.Some? then outputFile.value else DefaultFileName(scheme, stamp);

    var rows := [TitleRow(Banner(date)), TitleRow(scheme), Headers];
    var i := 0;
    while i < |entries|
      invariant 0 <= i <= |entries|
      invariant |rows| == 3 + i
      invariant rows[..3] == [TitleRow(Banner(date)), TitleRow(scheme), Headers]
      invariant forall k :: 0 <= k < i ==> rows[3 + k] == EntryRow(entries[k])
    {
      var entry := entries[i];
      if !entry.Dict? {
        rows := rows + [EmptyRow];
        i := i + 1;
        continue;
      }
      var rowData := [Get(entry.fields, "ID"), Get(entry.fields, "Name"), Get(entry.fields, "Phone1"),
                      Get(entry.fields, "Phone2"), Get(entry.fields, "Phone3")];
      var row := EmptyRow;
      for c := 0 to Columns
        invariant |row| == Columns
        invariant forall d :: 0 <= d < c ==> row[d] == rowData[d]
      {
        row := row[c := rowData[c]];
      }
      assert row == rowData;
      rows := rows + [row];
      i := i + 1;
    }
    assert rows == Sheet(scheme, entries, date);

    var widths := ColumnWidths(rows);
    r := Success(Report(fileName, rows, widths));
  }
}
