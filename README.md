# Pop Quiz "Best Of" Calculator — a Dafny model

The calculator reads a spreadsheet of student grades, and for every student row
averages the best K numeric scores found in a 1-based inclusive column range
[start, end], rounding to two decimals (0 when the range holds no number). It
shows the rows with the result appended and exports them, with a header row
extended by the column "Best Pop quiz Result", as `pop_quiz_results.xlsx`.

This project models the logic of `App.tsx`:

- `types.dfy` (module `Types`): cells as the spreadsheet library hands them over
  (number, string, boolean, hole), rows and tables, the `ProcessedRow` record of
  `types.ts`, `parseFloat` applied to a cell, and `parseFloat(x.toFixed(2))`.
- `bestof.dfy` (module `BestOf`): the per-row reduction. The collecting `for`
  loop is a method (`CollectScores`) proved against the function `Collected`; the
  sort, the slice and the `reduce` are functions; `ProcessRow` is the callback of
  `studentData.map`.
- `tables.dfy` (module `Tables`): the header/data split, the extended headers,
  the mapping over the data rows, the export array and its inverse, and the
  download guard.
- `app.dfy` (module `App`): the file acceptance rule, the parameter guards, and
  the class `Calculator` whose fields are the component's state variables and
  whose methods are the handlers `handleFileDrop`, `handleProcess` and
  `handleDownload` (plus the three number inputs' setters).
- `wrappers.dfy` (module `Wrappers`): `Option` and `Result`.

Modelling choices:

- Scores are exact reals, not IEEE doubles. `NaN` is `None`: a parameter whose
  `parseInt` gave `NaN` is `None`, and so is a cell `parseFloat` cannot read.
- `parseFloat` of a number cell is that number, of a boolean or a hole it is
  `NaN`. Its reading of strings is a parameter `parseText: string -> Option<real>`.
- `readFileAsArray` is a parameter `readFile: FileInfo -> ReadOutcome`: either the
  first sheet as rows, or a rejection with the `Error`'s message (or none, in which
  case the generic message is shown).
- `exportArrayToExcel` is not called: `HandleDownload` returns the array and the
  file name it would be given.
- `quizScores.sort((a, b) => b - a)` is modelled by its contract: a non-increasing
  permutation, computed by a functional insertion sort. `SortedPermutationUnique`
  shows that every sorting algorithm gives the same result here.
- `toFixed(2)` followed by `parseFloat` is modelled exactly on reals. Below
  10^21 in magnitude the magnitude is rounded to the nearest hundredth, with ties
  going up. The sign is then put back. From 10^21 on, `toFixed` prints the number
  unchanged.
- `studentData.map` is the method `MapRows`, which calls `ProcessRow` on each data
  row in order.
- A guard in `handleProcess` that fails (no file, a missing or non-positive field,
  start after end) returns early. It sets only the error: results from an earlier
  run stay in place. A failure after the guards (read error, fewer than two
  rows) comes after `setProcessedData([])`. It leaves no rows, but the headers of
  the earlier run stay, because `setHeaders` is only reached on success. The
  model follows the code in both cases.

## Model

| member | source | states |
|---|---|---|
| Types.ParseFloat | App.tsx:67 | a number cell parses to itself; a boolean or an empty cell is NaN (None) |
| Types.Round2 | App.tsx:82 | rounding to two decimals moves a value by at most 1/200 and keeps its sign; values of magnitude 10^21 or more are unchanged |
| Types.Round2Hundredths | App.tsx:82 | below 10^21 in magnitude the result is a whole number of hundredths within half a hundredth of the average; a tie goes away from zero (up for a positive average, down for a negative one) |
| Types.Round2Exact | App.tsx:82 | a value with at most two decimals is unchanged by the rounding |
| Types.Round2Idempotent | App.tsx:82 | rounding an already rounded average changes nothing |
| BestOf.CollectScores | App.tsx:64-71 | the loop pushes exactly `Collected(row, start-1, end)` and at most end-start+1 scores |
| BestOf.CollectedIsNumericSlice | App.tsx:64-71 | the collected scores are exactly the numeric cells of the row between 0-based columns start-1 and end-1, in column order; columns past the row's end add nothing |
| BestOf.CollectedBound | App.tsx:66-71 | at most end-start+1 scores are collected |
| BestOf.CollectedEmptyIff | App.tsx:66-71 | no score is collected iff no cell of the range (within the row) parses as a number |
| BestOf.Insert | App.tsx:73 | inserting a score adds exactly that element (same multiset plus one) |
| BestOf.InsertSorted | App.tsx:73 | inserting into a non-increasing list keeps it non-increasing, and the new head is the inserted score or the old head |
| BestOf.SortDescending | App.tsx:73 | the sorted scores are a permutation (same multiset, same length) of the collected ones |
| BestOf.SortDescendingSorted | App.tsx:73 | the sorted scores are non-increasing, as the comparator `b - a` orders them |
| BestOf.SortedPermutationUnique | App.tsx:73 | two non-increasing permutations of the same scores are equal |
| BestOf.SortDescendingIsTheSort | App.tsx:73 | any non-increasing permutation of the scores is the model's sort result |
| BestOf.TopScoresShape | App.tsx:73-74 | the kept scores number min(bestOf, n), are non-increasing, and followed by the dropped ones give back the sorted list |
| BestOf.TopScoresPartition | App.tsx:73-74 | the kept and the dropped scores together are exactly the collected multiset |
| BestOf.TopScoresDominate | App.tsx:73-74 | every kept score is at least every dropped score |
| BestOf.SumAppend | App.tsx:77 | the reduce-sum of a concatenation is the sum of the sums |
| BestOf.SumRemove | App.tsx:77 | taking one score out of a list subtracts it from the sum and removes one copy from the multiset |
| BestOf.SumPermutation | App.tsx:73-77 | reordering the scores (the sort) does not change their sum |
| BestOf.SumAtMost | App.tsx:77 | a sum of n scores each at most h is at most n*h |
| BestOf.SumAtLeast | App.tsx:77 | a sum of n scores each at least l is at least n*l |
| BestOf.MeanBounds | App.tsx:76-78 | the average of a non-empty list lies between any lower and upper bound of its elements |
| BestOf.MeanOfExtension | App.tsx:76-78 | appending scores no larger than an average does not raise it |
| BestOf.BestOfAverageNone | App.tsx:76-78 | with no numeric cell in the range the average is 0 |
| BestOf.DroppedAtMostMean | App.tsx:73-78 | with scores and bestOf >= 1 something is kept, and every dropped score is at most the kept scores' average |
| BestOf.BestOfAverageBetween | App.tsx:73-78 | with some collected score and bestOf >= 1 the average lies between the lowest and the highest kept score, is at least every dropped score, and the highest kept score is the maximum collected |
| BestOf.MeanOfSorted | App.tsx:73-78 | sorting does not change the plain average of the scores |
| BestOf.BestOfNeverLowers | App.tsx:73-78 | the best-of average is at least the plain average of all collected scores |
| BestOf.BestOfAverageFromSorted | App.tsx:63-78 | any non-increasing rearrangement of a row's collected scores gives, cut to bestOf, the row's best-of average |
| BestOf.BestTwoOfThree | App.tsx:63-84 | for a name and three scores in columns 2-4, in any order, best 2 is the sum of the three less the lowest, halved |
| BestOf.BestTwoOfSevenNineFive | App.tsx:63-84 | best 2 of 7, 9, 5 gives 8 after rounding |
| BestOf.ProcessRow | App.tsx:63-84 | the callback returns the original row with the rounded best-of average of its range |
| Tables.SplitTable | App.tsx:53-58 | a sheet is refused with the "header row and at least one data row" message iff it has fewer than 2 rows; otherwise header row plus data rows reassemble the sheet |
| Tables.ExtendHeaders | App.tsx:60 | the new headers are the old ones followed by exactly one cell, "Best Pop quiz Result" |
| Tables.ProcessRows | App.tsx:63-84 | one processed row per data row, in order, each keeping its data row unchanged |
| Tables.ProcessTableShape | App.tsx:53-84 | fewer than 2 rows is refused; otherwise headers are row 0 plus the result column and there is exactly one processed row per later row, in order |
| Tables.ExportTable | App.tsx:100 | the export has one more row than the processed data, starts with the headers, and each data row is its original followed by one cell |
| Tables.ExportReadBack | App.tsx:100 | reading the export back yields the headers and the processed rows |
| Tables.ReadBackExport | App.tsx:100 | every table that reads back is the export of what it reads back to |
| Tables.ExportOfProcessed | App.tsx:57-100 | exporting a processed sheet gives as many rows as were read in, each original row extended by its rounded best-of average, the header by the result title |
| Tables.Download | App.tsx:95-101 | download is refused with "No data available to download." iff there are no processed rows or no headers; otherwise the export goes to pop_quiz_results.xlsx |
| Tables.DownloadAfterProcessing | App.tsx:53-101 | after a successful processing run the download is always allowed and has one row per sheet row |
| App.AcceptsXlsx | App.tsx:23 | a file named stem.xlsx is accepted whatever its type, and a spreadsheet-typed file whatever its name |
| App.AcceptsFileIff | App.tsx:23 | a file is accepted iff its type is the spreadsheetml MIME type or its name is some stem followed by .xlsx |
| App.CheckParams | App.tsx:38-45 | the parameters pass iff all are present and 1 <= start <= end and bestOf >= 1; a missing or non-positive one gives the "valid, positive numbers" message, otherwise start > end gives the ordering message |
| App.ProcessRunGuards | App.tsx:33-58 | a run is refused iff there is no file or a parameter is missing, below 1, or start > end; rows are produced only from a loaded sheet of at least 2 rows with valid parameters |
| App.MapRows | App.tsx:63-86 | the loop that runs the callback on each data row in turn builds exactly the processed rows of the sheet |
| App.Calculator.constructor | App.tsx:11-20 | initial state: no file, columns 6 to 8, best of 2, no results, not loading, no error |
| App.Calculator.SetStartColumn | App.tsx:132 | the start column becomes the entered value (None for NaN) |
| App.Calculator.SetEndColumn | App.tsx:144 | the end column becomes the entered value (None for NaN) |
| App.Calculator.SetBestOf | App.tsx:156 | the best-of count becomes the entered value (None for NaN) |
| App.Calculator.HandleFileDrop | App.tsx:22-31 | an accepted file becomes the current file and clears results, headers and error; a refused one leaves file and results unchanged and sets the invalid-type error |
| App.Calculator.HandleProcess | App.tsx:33-93 | a refused run sets only the error; a failed run clears the rows, keeps the headers and sets the error; a successful run installs the extended headers and the processed rows and clears the error; loading ends false after any run past the guards |
| App.Calculator.HandleDownload | App.tsx:95-102 | with no rows or headers only the no-data error is set; otherwise the export array and file name are handed over and the error is unchanged |

## Left out

- File reading and writing (`services/excelService.ts`): the `FileReader` and the
  spreadsheet library are not part of this model. A sheet comes in through
  `readFile`, and the export array goes out of `HandleDownload`. The binary
  round trip through a `.xlsx` file is not modelled; `ExportReadBack` states it
  on the array.
- How `parseFloat` reads a string (leading whitespace, a prefix such as `"85%"`
  reading as 85) and how `parseInt` reads the number inputs. Both are abstracted
  (the `parseText` parameter, and `Option<int>` values given to the setters).
- Floating point: IEEE rounding of the sum and the division, `Infinity` cells
  (`parseFloat("Infinity")`, which is not `NaN`) and the binary representation
  behind `toFixed` (such as `1.005` printing as `1.00`). Scores are exact reals.
- BestOf.CollectScores: column numbers are exact integers in the model, so its loop
  always ends after `end - start + 1` steps. In `App.tsx` the counter is a double.
  Once it reaches 2^53, `i++` no longer changes it, so an end column above 2^53
  (such as `100000000000000000000`, which `parseInt` reads as 1e20 and which
  passes the guards) makes the loop run forever. The model does not capture
  that hang.
- The in-place update and the algorithm of `Array.prototype.sort`: the sort is a
  function on sequences, and the collected scores are a sequence variable.
- React plumbing: `useState`/`useCallback`, the asynchronous `await` (the read is
  one synchronous step, so no render can see `isLoading` true), `console.error`,
  the disabled state of the button, and the UI components (`FileUpload`,
  `ResultsTable`, drag-and-drop state).
