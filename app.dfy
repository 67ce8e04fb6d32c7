/**
 * The calculator's screen state and its three handlers (App.tsx): accepting a
 * dropped file, processing it with the configured column range and best-of
 * count, and downloading the result. The React state variables are the fields
 * of `Calculator`; each handler is a method that updates them as the setters
 * do. Reading the file and parsing text as numbers are outside the model and
 * come in as parameters.
 */
module App {
  import opened Wrappers
  import opened Types
  import BestOf
  import opened Tables

  /** What the handlers look at in a browser `File`. */
  datatype FileInfo = FileInfo(name: string, mimeType: string)

  const SpreadsheetMimeType: string := "application/vnd.openxmlformats-officedocument.spreadsheetml.sheet"
  const XlsxSuffix: string := ".xlsx"

  const InvalidFileMessage: string := "Invalid file type. Please upload a .xlsx file."
  const NoFileMessage: string := "Please upload an Excel file first."
  const InvalidNumbersMessage: string := "Please enter valid, positive numbers for all fields."
  const StartAfterEndMessage: string := "Start column index cannot be greater than the end column index."
  const UnknownErrorMessage: string := "An unknown error occurred during processing."

  predicate EndsWith(s: string, suffix: string)
  {
    |suffix| <= |s| && s[|s| - |suffix|..] == suffix
  }

  // ---------------------------------------------------------------------------
  // Accepting a file
  // ---------------------------------------------------------------------------

  /** A file is taken when its type is the spreadsheet MIME type or its name ends in `.xlsx`. */
  predicate AcceptsFile(f: FileInfo)
  {
    f.mimeType == SpreadsheetMimeType || EndsWith(f.name, XlsxSuffix)
  }

  /** Any file named `<stem>.xlsx` is accepted, whatever its type, and so is any
      file of the spreadsheet type, whatever its name. */
  lemma AcceptsXlsx(stem: string, mimeType: string, name: string)
    ensures AcceptsFile(FileInfo(stem + XlsxSuffix, mimeType))
    ensures AcceptsFile(FileInfo(name, SpreadsheetMimeType))
  {
    assert (stem + XlsxSuffix)[|stem|..] == XlsxSuffix;
  }

  /** A file is accepted exactly when it has the spreadsheet type or its name is
      some stem followed by `.xlsx`. */
  lemma AcceptsFileIff(f: FileInfo)
    ensures AcceptsFile(f) <==> f.mimeType == SpreadsheetMimeType || exists stem :: f.name == stem + XlsxSuffix
  {
    if EndsWith(f.name, XlsxSuffix) {
      var stem := f.name[..|f.name| - |XlsxSuffix|];
      assert f.name == stem + XlsxSuffix;
    }
    if exists stem :: f.name == stem + XlsxSuffix {
      var stem :| f.name == stem + XlsxSuffix;
      AcceptsXlsx(stem, f.mimeType, f.name);
    }
  }

  // ---------------------------------------------------------------------------
  // Checking the parameters
  // ---------------------------------------------------------------------------

  /** The validated column range and best-of count. */
  datatype Params = Params(start: int, end: int, bestOf: nat)

  /** The guards of `handleProcess`: every field present (`parseInt` gave no
      `NaN`) and positive, then the start column not after the end column. */
  function CheckParams(startColumn: Option<int>, endColumn: Option<int>, bestOf: Option<int>): (r: Result<Params, string>)
    ensures r.Success? <==>
      startColumn.Some? && endColumn.Some? && bestOf.Some? &&
      1 <= startColumn.value <= endColumn.value && 1 <= bestOf.value
    ensures r.Success? ==>
      r.value.start == startColumn.value && r.value.end == endColumn.value && r.value.bestOf == bestOf.value
    ensures r.Failure? && (startColumn.None? || endColumn.None? || bestOf.None?) ==> r.error == InvalidNumbersMessage
    ensures r.Failure? && startColumn.Some? && endColumn.Some? && bestOf.Some? ==>
      r.error == (if startColumn.value <= 0 || endColumn.value <= 0 || bestOf.value <= 0
                  then InvalidNumbersMessage else StartAfterEndMessage)
  {
    if startColumn.None? || endColumn.None? || bestOf.None?
       || startColumn.value <= 0 || endColumn.value <= 0 || bestOf.value <= 0 then
      Failure(InvalidNumbersMessage)
    else if startColumn.value > endColumn.value then
      Failure(StartAfterEndMessage)
    else
      Success(Params(startColumn.value, endColumn.value, bestOf.value))
  }

  // ---------------------------------------------------------------------------
  // Processing
  // ---------------------------------------------------------------------------

  /** What `readFileAsArray` settles with: the first sheet as rows, or a
      rejection carrying a message when the rejection is an `Error`. */
  datatype ReadOutcome = Loaded(data: Table) | ReadError(message: Option<string>)

  /** The message the catch block shows for a failure. */
  function FailureMessage(message: Option<string>): string
  {
    match message
    case Some(m) => m
    case None => UnknownErrorMessage
  }

  /** How a run of `handleProcess` ends: refused by a guard before anything is
      cleared, failed after the previous results were cleared, or processed. */
  datatype ProcessOutcome =
    | Refused(message: string)
    | Failed(message: string)
    | Processed(headers: Row, rows: seq<ProcessedRow>)

  /** The outcome of `handleProcess` for the current file and fields. */
  function ProcessRun(file: Option<FileInfo>, startColumn: Option<int>, endColumn: Option<int>, bestOf: Option<int>,
                      readFile: FileInfo -> ReadOutcome, parseText: TextParser): ProcessOutcome
  {
    if file.None? then Refused(NoFileMessage)
    else
      match CheckParams(startColumn, endColumn, bestOf)
      case Failure(message) => Refused(message)
      case Success(p) =>
        match readFile(file.value)
        case ReadError(message) => Failed(FailureMessage(message))
        case Loaded(data) =>
          match ProcessTable(data, p.start, p.end, p.bestOf, parseText)
          case Failure(message) => Failed(message)
          case Success((headers, rows)) => Processed(headers, rows)
  }

  /** A run is refused, and leaves the results alone, exactly when there is no
      file or a field is missing, not positive, or the start column is after the
      end column; rows are processed only from a sheet with a data row, with
      1 <= start <= end and a best-of count of at least 1. */
  lemma ProcessRunGuards(file: Option<FileInfo>, startColumn: Option<int>, endColumn: Option<int>, bestOf: Option<int>,
                         readFile: FileInfo -> ReadOutcome, parseText: TextParser)
    ensures ProcessRun(file, startColumn, endColumn, bestOf, readFile, parseText).Refused? <==>
      file.None? || startColumn.None? || endColumn.None? || bestOf.None? ||
      startColumn.value < 1 || endColumn.value < startColumn.value || bestOf.value < 1
    ensures ProcessRun(file, startColumn, endColumn, bestOf, readFile, parseText).Processed? ==>
      file.Some? && readFile(file.value).Loaded? && |readFile(file.value).data| >= 2 &&
      1 <= startColumn.value <= endColumn.value && 1 <= bestOf.value
  {
    if file.Some? && CheckParams(startColumn, endColumn, bestOf).Success? {
      var p := CheckParams(startColumn, endColumn, bestOf).value;
      if readFile(file.value).Loaded? {
        ProcessTableShape(readFile(file.value).data, p.start, p.end, p.bestOf, parseText);
      }
    }
  }

  /** `studentData.map(...)`: runs the per-row callback on every data row in order. */
  method MapRows(studentData: Table, p: Params, parseText: TextParser) returns (newProcessedData: seq<ProcessedRow>)
    requires 1 <= p.start <= p.end
    ensures newProcessedData == ProcessRows(studentData, p.start, p.end, p.bestOf, parseText)
  {
    newProcessedData := [];
    var j := 0;
    while j < |studentData|
      invariant 0 <= j <= |studentData|
      invariant |newProcessedData| == j
      invariant forall k :: 0 <= k < j ==>
        newProcessedData[k] == BestOf.RowResult(studentData[k], p.start, p.end, p.bestOf, parseText)
    {
      var row := BestOf.ProcessRow(studentData[j], p.start, p.end, p.bestOf, parseText);
      newProcessedData := newProcessedData + [row];
      j := j + 1;
    }
  }

  // ---------------------------------------------------------------------------
  // The screen state
  // ---------------------------------------------------------------------------

  class Calculator {
    var file: Option<FileInfo>
    var startColumn: Option<int>
    var endColumn: Option<int>
    var bestOf: Option<int>
    var processedData: seq<ProcessedRow>
    var headers: Row
    var isLoading: bool
    var error: Option<string>

    /** The initial state: no file, columns 6 to 8, best 2, no results, no error. */
    constructor ()
      ensures file == None && startColumn == Some(6) && endColumn == Some(8) && bestOf == Some(2)
      ensures processedData == [] && headers == [] && !isLoading && error == None
    {
      file := None;
      startColumn, endColumn, bestOf := Some(6), Some(8), Some(2);
      processedData, headers := [], [];
      isLoading, error := false, None;
    }

    /** The number inputs; `None` is what `parseInt` makes of an unreadable entry. */
    method SetStartColumn(value: Option<int>)
      modifies this`startColumn
      ensures startColumn == value
    {
      startColumn := value;
    }

    method SetEndColumn(value: Option<int>)
      modifies this`endColumn
      ensures endColumn == value
    {
      endColumn := value;
    }

    method SetBestOf(value: Option<int>)
      modifies this`bestOf
      ensures bestOf == value
    {
      bestOf := value;
    }

    /** `handleFileDrop`: an accepted file replaces the current one and clears the
        results and the error; any other file only sets the error. */
    method HandleFileDrop(dropped: FileInfo)
      modifies this`file, this`processedData, this`headers, this`error
      ensures AcceptsFile(dropped) ==>
        file == Some(dropped) && processedData == [] && headers == [] && error == None
      ensures !AcceptsFile(dropped) ==>
        file == old(file) && processedData == old(processedData) && headers == old(headers) &&
        error == Some(InvalidFileMessage)
    {
      if AcceptsFile(dropped) {
        file := Some(dropped);
        processedData := [];
        headers := [];
        error := None;
      } else {
        error := Some(InvalidFileMessage);
      }
    }

    /** `handleProcess`, with `readFile` standing for `readFileAsArray`: a guard
        that fails only sets the error; past the guards the previous rows are
        cleared, and the run either fails with a message (headers left as they
        were) or installs the new headers and one processed row per data row. */
    method HandleProcess(readFile: FileInfo -> ReadOutcome, parseText: TextParser)
      modifies this`processedData, this`headers, this`isLoading, this`error
      ensures match ProcessRun(file, startColumn, endColumn, bestOf, readFile, parseText)
        case Refused(message) =>
          error == Some(message) && processedData == old(processedData) &&
          headers == old(headers) && isLoading == old(isLoading)
        case Failed(message) =>
          error == Some(message) && processedData == [] && headers == old(headers) && !isLoading
        case Processed(newHeaders, rows) =>
          error == None && processedData == rows && headers == newHeaders && !isLoading
    {
      if file.None? {
        error := Some(NoFileMessage);
        return;
      }
      var checked := CheckParams(startColumn, endColumn, bestOf);
      if checked.Failure? {
        error := Some(checked.error);
        return;
      }
      var p := checked.value;

      isLoading := true;
      error := None;
      processedData := [];

      match readFile(file.value) {
      case ReadError(message) =>
        error := Some(FailureMessage(message));
      case Loaded(data) =>
        var split := SplitTable(data);
        if split.Failure? {
          error := Some(split.error);
        } else {
          var (originalHeaders, studentData) := split.value;
          headers := ExtendHeaders(originalHeaders);
          processedData := MapRows(studentData, p, parseText);
        }
      }
      isLoading := false;
    }

    /** `handleDownload`: with no rows or no headers only the error is set;
        otherwise the export array and file name are handed to the exporter. */
    method HandleDownload() returns (download: Option<(Table, string)>)
      modifies this`error
      ensures Download(processedData, headers).Failure? ==>
        download == None && error == Some(NoDataMessage)
      ensures Download(processedData, headers).Success? ==>
        download == Some(Download(processedData, headers).value) && error == old(error)
      ensures download.Some? ==>
        download.value.0 == ExportTable(headers, processedData) && download.value.1 == ExportFileName
    {
      var outcome := Download(processedData, headers);
      if outcome.Failure? {
        error := Some(outcome.error);
        return None;
      }
      download := Some(outcome.value);
    }
  }
}
