/**
 * The table-level steps of the calculator (App.tsx): splitting the sheet into
 * its header row and its data rows, applying the best-of reduction to every
 * data row, appending the result column to the headers, and building the
 * two-dimensional array that is exported.
 */
module Tables {
  import opened Wrappers
  import opened Types
  import BestOf

  /** Title of the column the calculator appends. */
  const ResultHeader: string := "Best Pop quiz Result"
  const TooFewRowsMessage: string := "Excel file must have a header row and at least one data row."
  const NoDataMessage: string := "No data available to download."
  const ExportFileName: string := "pop_quiz_results.xlsx"

  /** A sheet needs a header row and at least one data row; row 0 is the header
      and every other row, in order, is a data row. */
  function SplitTable(data: Table): (r: Result<(Row, Table), string>)
    ensures r.Success? <==> |data| >= 2
    ensures r.Failure? ==> r.error == TooFewRowsMessage
    ensures r.Success? ==> [r.value.0] + r.value.1 == data && |r.value.1| >= 1
  {
    if |data| < 2 then Failure(TooFewRowsMessage)
    else
      assert data == [data[0]] + data[1..];
      Success((data[0], data[1..]))
  }

  /** `[...originalHeaders, 'Best Pop quiz Result']`. */
  function ExtendHeaders(headers: Row): (r: Row)
    ensures |r| == |headers| + 1
    ensures r[..|headers|] == headers && r[|headers|] == Text(ResultHeader)
  {
    headers + [Text(ResultHeader)]
  }

  /** `studentData.map(...)`: one processed row per data row, in the same order,
      each keeping its data row unchanged. */
  function ProcessRows(rows: Table, start: int, end: int, bestOf: nat, parseText: TextParser): (r: seq<ProcessedRow>)
    ensures |r| == |rows|
    ensures forall i :: 0 <= i < |rows| ==> r[i].originalRow == rows[i]
  {
    seq(|rows|, i requires 0 <= i < |rows| => BestOf.RowResult(rows[i], start, end, bestOf, parseText))
  }

  /** The whole transformation of a sheet: the extended headers and the processed
      data rows, or the error for a sheet without a data row. */
  function ProcessTable(data: Table, start: int, end: int, bestOf: nat, parseText: TextParser): Result<(Row, seq<ProcessedRow>), string>
  {
    match SplitTable(data)
    case Failure(message) => Failure(message)
    case Success((originalHeaders, studentData)) =>
      Success((ExtendHeaders(originalHeaders), ProcessRows(studentData, start, end, bestOf, parseText)))
  }

  /** A sheet with fewer than two rows is refused; otherwise the headers are row 0
      plus the result column, and there is exactly one processed row per later
      row, in order, holding that row unchanged. */
  lemma ProcessTableShape(data: Table, start: int, end: int, bestOf: nat, parseText: TextParser)
    ensures ProcessTable(data, start, end, bestOf, parseText).Success? <==> |data| >= 2
    ensures ProcessTable(data, start, end, bestOf, parseText).Failure? ==>
      ProcessTable(data, start, end, bestOf, parseText).error == TooFewRowsMessage
    ensures ProcessTable(data, start, end, bestOf, parseText).Success? ==>
      var (headers, rows) := ProcessTable(data, start, end, bestOf, parseText).value;
      headers == data[0] + [Text(ResultHeader)] &&
      |rows| == |data| - 1 &&
      forall i :: 1 <= i < |data| ==> rows[i - 1].originalRow == data[i]
  {
    if |data| >= 2 {
      var (originalHeaders, studentData) := SplitTable(data).value;
      assert originalHeaders == data[0] && studentData == data[1..];
    }
  }

  /** `[headers, ...processedData.map(row => [...row.originalRow, row.calculatedAvg])]`. */
  function ExportTable(headers: Row, data: seq<ProcessedRow>): (r: Table)
    ensures |r| == |data| + 1 && r[0] == headers
    ensures forall i :: 0 <= i < |data| ==>
      |r[i + 1]| == |data[i].originalRow| + 1 && r[i + 1][..|data[i].originalRow|] == data[i].originalRow &&
      r[i + 1][|data[i].originalRow|] == Number(data[i].calculatedAvg)
  {
    [headers] + seq(|data|, i requires 0 <= i < |data| => data[i].originalRow + [Number(data[i].calculatedAvg)])
  }

  /** Reading an exported table back: the header row, and every data row split
      into its original cells and its trailing numeric result; `None` when the
      table has no header or a data row does not end in a number. */
  function ReadBack(t: Table): Option<(Row, seq<ProcessedRow>)>
  {
    if |t| == 0 then None
    else if forall i :: 1 <= i < |t| ==> |t[i]| > 0 && t[i][|t[i]| - 1].Number? then
      Some((t[0], seq(|t| - 1, i requires 0 <= i < |t| - 1 =>
        ProcessedRow(t[i + 1][..|t[i + 1]| - 1], t[i + 1][|t[i + 1]| - 1].value))))
    else None
  }

  /** Exporting loses nothing: reading the export back gives the headers and the
      processed rows that were exported. */
  lemma ExportReadBack(headers: Row, data: seq<ProcessedRow>)
    ensures ReadBack(ExportTable(headers, data)) == Some((headers, data))
  {
    var t: Table := ExportTable(headers, data);
    forall i: int | 1 <= i < |t| ensures |t[i]| > 0 && t[i][|t[i]| - 1].Number? {
      assert |t[i]| - 1 == |data[i - 1].originalRow|;
    }
    var back := ReadBack(t).value.1;
    assert |back| == |data|;
    forall i | 0 <= i < |data| ensures back[i] == data[i] {
      assert |t[i + 1]| - 1 == |data[i].originalRow|;
    }
    assert back == data;
  }

  /** Conversely, every table that reads back is the export of what it reads back to. */
  lemma ReadBackExport(t: Table)
    requires ReadBack(t).Some?
    ensures ExportTable(ReadBack(t).value.0, ReadBack(t).value.1) == t
  {
    var (headers, data) := ReadBack(t).value;
    var e := ExportTable(headers, data);
    assert |e| == |t|;
    forall i | 0 <= i < |t| ensures e[i] == t[i] {
      if i > 0 {
        assert e[i] == data[i - 1].originalRow + [Number(data[i - 1].calculatedAvg)];
        assert t[i] == t[i][..|t[i]| - 1] + [t[i][|t[i]| - 1]];
      }
    }
  }

  /** The exported sheet of a processed sheet has as many rows as the sheet read
      in; its header row and every data row are the originals with one cell
      appended, that cell being the row's best-of result. */
  lemma ExportOfProcessed(data: Table, start: int, end: int, bestOf: nat, parseText: TextParser)
    requires |data| >= 2
    ensures var (headers, rows) := ProcessTable(data, start, end, bestOf, parseText).value;
      var e := ExportTable(headers, rows);
      |e| == |data| &&
      e[0] == data[0] + [Text(ResultHeader)] &&
      forall i :: 1 <= i < |data| ==>
        |e[i]| == |data[i]| + 1 && e[i][..|data[i]|] == data[i] &&
        e[i][|data[i]|] == Number(Round2(BestOf.BestOfAverage(data[i], start - 1, end, bestOf, parseText)))
  {
    ProcessTableShape(data, start, end, bestOf, parseText);
    var (headers, rows) := ProcessTable(data, start, end, bestOf, parseText).value;
    var e := ExportTable(headers, rows);
    forall i | 1 <= i < |data|
      ensures e[i][|data[i]|] == Number(Round2(BestOf.BestOfAverage(data[i], start - 1, end, bestOf, parseText)))
    {
      assert data[1..][i - 1] == data[i];
      assert rows[i - 1] == BestOf.RowResult(data[i], start, end, bestOf, parseText);
    }
  }

  /** `handleDownload`: nothing is exported while there are no processed rows or
      no headers; otherwise the export array goes to `pop_quiz_results.xlsx`. */
  function Download(processedData: seq<ProcessedRow>, headers: Row): (r: Result<(Table, string), string>)
    ensures r.Success? <==> |processedData| > 0 && |headers| > 0
    ensures r.Failure? ==> r.error == NoDataMessage
    ensures r.Success? ==> r.value.1 == ExportFileName && |r.value.0| == |processedData| + 1
  {
    if |processedData| == 0 || |headers| == 0 then Failure(NoDataMessage)
    else Success((ExportTable(headers, processedData), ExportFileName))
  }

  /** After a sheet has been processed successfully, downloading always succeeds
      and produces one row per row of the sheet read in. */
  lemma DownloadAfterProcessing(data: Table, start: int, end: int, bestOf: nat, parseText: TextParser)
    requires ProcessTable(data, start, end, bestOf, parseText).Success?
    ensures var (headers, rows) := ProcessTable(data, start, end, bestOf, parseText).value;
      Download(rows, headers).Success? && |Download(rows, headers).value.0| == |data|
  {
    ProcessTableShape(data, start, end, bestOf, parseText);
  }
}
