# sas-convert, modelled in Dafny

sas-convert reads a SAS7BDAT file and writes three files:

- a metadata CSV with two rows: the column names, then the column labels;
- a data CSV: a header row of column names, then one row per data row read;
- optionally, a progress file that holds the latest integer percentage and
  finally "100".

The model covers the conversion routine `Convert.convert`. It also covers
how the command line splits a `gs://<bucket>/<object>` locator into a
bucket name and an object name.

## Modules

- `Cells` (`cells.dfy`) covers the cell values a decoded row holds: null,
  a date, or any other value with its text. It renders each cell as the
  routine does:
  - a date with a time of day uses `yyyy-MM-dd HH:mm:ss`;
  - a midnight date uses `yyyy-MM-dd`;
  - null gives the empty text;
  - anything else gives its own text.

  The module also parses the date text back, to prove the rendering
  loses nothing.
- `Conversion` (`convert.dfy`) holds the conversion.
  - The decoder is represented by what it hands the routine: the column
    list, the row count from the file header, and the sequence of rows.
  - The three outputs are represented by one ordered log of writes. The
    functions `MetadataRows` and `DataRows` give the rows passed to each
    writer's `writeNext`, and `ProgressTexts` gives the texts the progress
    file is overwritten with. The metadata writer is flushed and closed
    before the loop; the data writer only after it (see "Left out").
  - `Converted` is the specification function. It runs the read loop row
    by row (`Step`, `RunRows`).
  - The method `Convert` does the same work imperatively. The reused
    `metadata` and `outData` buffers are arrays, each row is copied in
    place by `StoreCells`, and the method is proved equal to `Converted`.
- `ConversionProperties` (`properties.dfy`) proves what a conversion
  promises:
  - metadata before data;
  - one data row per row read;
  - cells reused across rows;
  - when the routine completes and when it aborts;
  - the sequence of progress values.
- `Locator` (`locator.dfy`) models the split of a `gs://` locator as
  written, with Java's replace-all and split semantics, and a corrected
  split.

### Where the model follows the code rather than the documented behaviour

- **Progress with a zero row count.** The progress percentage is
  `rowCount * 100 / totalRowCount`, computed with Java's truncating long
  division. With a progress file, at least one row, and a header row count
  of 0, this raises an arithmetic exception when the first row passes the
  width assertion (always, with assertions off); a first row of the wrong
  width with assertions on fails the assertion first. The routine is not documented
  as failing in that case. The model reports `Aborted(DivisionByZero)`
  (`ZeroTotalRowCount`).
- **When progress is checked.** The percentage is checked *before* each
  row is written, from the number of rows already written. For a
  four-row file the progress file therefore receives 0, 25, 50, 75 and
  then the final "100". It does not receive 25, 50, 75, 100
  (`CheckpointExamples`).
- **Row width.** The check that a row has the schema's width is a Java
  `assert`, which the JVM skips unless assertions are enabled. The model
  takes whether assertions are enabled as an option (`assertionsEnabled`).
  With assertions off:
  - a longer row fails with an index exception on `outData`;
  - a shorter row leaves the previous row's values in the cells it does
    not reach (`ShortRowKeepsStaleCells`).

## Model

| member | source | states |
|---|---|---|
| Conversion.Convert | src/main/java/thehyve/sas/Convert.java:66-168 | the imperative routine, with reused name/label and output buffers, yields exactly the outcome and the ordered writes of the specification `Converted` |
| Conversion.ReadRow | src/main/java/thehyve/sas/Convert.java:118-148 | one pass of the loop body on the reused output array gives exactly the next state of the specification step, and the array then holds that state's row |
| Conversion.StoreNames | src/main/java/thehyve/sas/Convert.java:108-110 | the buffer afterwards holds the column names in schema order (also used for the metadata names row, lines 87-89) |
| Conversion.StoreLabels | src/main/java/thehyve/sas/Convert.java:92-94 | the buffer afterwards holds the column labels in schema order |
| Conversion.StoreCells | src/main/java/thehyve/sas/Convert.java:127-146 | the row is stored exactly when it is no longer than the buffer; then the first cells hold the formatted values and the rest keep their old values; otherwise an index exception is reported |
| Conversion.JavaDiv | src/main/java/thehyve/sas/Convert.java:119-120 | long division truncates: for a non-negative dividend and positive divisor it is the floor quotient, it is never positive when the signs differ, and it is 0 for a zero dividend |
| Conversion.Percent | src/main/java/thehyve/sas/Convert.java:119-120 | the progress percentage `rowCount * 100 / totalRowCount` with truncating division; `CheckpointsIncrease` and `CheckpointExamples` state its values |
| Conversion.HeaderWrites | src/main/java/thehyve/sas/Convert.java:86-111 | the writes before the loop: names and labels rows to the metadata writer, then the names header to the data writer; `MetadataFirst` states them |
| Conversion.Step | src/main/java/thehyve/sas/Convert.java:117-148 | one loop iteration, raising in source order (assertion, division, index) and otherwise writing progress then the row; `StepSinks`, `StepKeepsMetadata` and `StoppedIsFinal` state its effect |
| Conversion.RunRows | src/main/java/thehyve/sas/Convert.java:115-152 | the loop state after reading the rows in order; `RunningIff`, `RunningCounts` and `LoopProgress` state it |
| Conversion.Converted | src/main/java/thehyve/sas/Convert.java:66-168 | the outcome and all writes of a run, with the final "100" after a completed loop; `Convert` is proved equal to it and the `ConversionProperties` lemmas state its properties |
| Conversion.StoppedIsFinal | src/main/java/thehyve/sas/Convert.java:117-152 | once an exception is raised inside the read loop, no later row changes the outcome or the writes |
| ConversionProperties.StepKeepsMetadata | src/main/java/thehyve/sas/Convert.java:117-152 | an iteration of the read loop, whether it completes or raises, only appends to what was written and never writes a metadata row |
| ConversionProperties.StepSinks | src/main/java/thehyve/sas/Convert.java:119-147 | a completed iteration writes nothing to the metadata file, the new output row to the data file, and a progress text only when the percentage changed |
| ConversionProperties.MetadataFirst | src/main/java/thehyve/sas/Convert.java:86-111 | the first three writes are the names row and the labels row to the metadata file, then the names header to the data file; the metadata file receives nothing else |
| ConversionProperties.CompletesIff | src/main/java/thehyve/sas/Convert.java:117-148 | the routine completes without exception if and only if every row fits the buffer (has exactly the width when assertions are enabled) and the progress division is defined |
| ConversionProperties.DivisionOnlyWithProgressFile | src/main/java/thehyve/sas/Convert.java:119 | a division by zero happens only with a progress file and a zero header row count, because the `&&` skips the division otherwise |
| ConversionProperties.DataFileRows | src/main/java/thehyve/sas/Convert.java:108-148 | a completed run counts every row; the data file holds the header and then one row per row read, in order, each of the schema's width, each the formatted row stored over the previous one |
| ConversionProperties.WellFormedRows | src/main/java/thehyve/sas/Convert.java:117-147 | when every row has the schema's width and progress is defined, the run completes with the row count and the data file is the header followed by exactly the formatted rows |
| ConversionProperties.ShortRowKeepsStaleCells | src/main/java/thehyve/sas/Convert.java:127-146 | with a row shorter than the schema, the cells past its end in the first data row still hold the column names from the header |
| ConversionProperties.RunningCounts | src/main/java/thehyve/sas/Convert.java:115-148 | while the loop runs, the row count equals the rows read and the output buffer keeps the schema's width |
| ConversionProperties.ProgressFileWrites | src/main/java/thehyve/sas/Convert.java:115-161 | with a progress file, a completed run writes each checkpoint percentage in order and then "100", so the file ends at "100"; without one, nothing is written there |
| ConversionProperties.NoProgressFileNoWrites | src/main/java/thehyve/sas/Convert.java:157-161 | without a progress file (the `progressFileName != null` tests on lines 119 and 157) the progress file gets no write, whether the run completes or aborts |
| ConversionProperties.CheckpointsIncrease | src/main/java/thehyve/sas/Convert.java:119-120 | for a positive header row count, the checkpoints start at 0, strictly increase, include the percentage before every row, are non-negative, and stay below 100 while no more rows are read than the header announces |
| ConversionProperties.ZeroTotalRowCount | src/main/java/thehyve/sas/Convert.java:119-161 | with a progress file and a zero row count, an empty input completes with only the header writes and "100"; when the first row passes the width assertion (always, with assertions off), it raises the division by zero before any write for it; a first row of the wrong width with assertions on fails the assertion instead |
| ConversionProperties.CheckpointExamples | src/main/java/thehyve/sas/Convert.java:119-125 | a four-row file gets progress 0, 25, 50, 75 and a three-row file gets 0, 33, 66, before the final "100" |
| Cells.FormatCell | src/main/java/thehyve/sas/Convert.java:127-144 | one cell's text: empty for null, the date or date-time form for a date, the value's own text otherwise; `FormatCellCases` and `FormatDateForms` state its cases |
| Cells.FormatRow | src/main/java/thehyve/sas/Convert.java:127-146 | a row's cell texts, one per cell, as many as the row has cells; `FormatRowAt` places each |
| Cells.Pad | src/main/java/thehyve/sas/Convert.java:80-81 | a zero-padded date field: only digits, at least the requested width; `PadRoundTrip` proves it parses back |
| Cells.DateText | src/main/java/thehyve/sas/Convert.java:80 | the `yyyy-MM-dd` form of a date; `FormatDateRoundTrip` proves it parses back to the date |
| Cells.TimeText | src/main/java/thehyve/sas/Convert.java:81 | the `HH:mm:ss` part of the date-time form; `FormatDateRoundTrip` proves it parses back to the time |
| Cells.DateTimeText | src/main/java/thehyve/sas/Convert.java:81 | the `yyyy-MM-dd HH:mm:ss` form of a date; `FormatDateForms` relates it to the midnight form |
| Cells.IntToString | src/main/java/thehyve/sas/Convert.java:123 | `Long.toString` of a progress value: never empty; for a non-negative value it is the decimal rendering `NatToString`, which `ParseNatToString` proves parses back; a negative value gets a leading '-' |
| Cells.FormatCellCases | src/main/java/thehyve/sas/Convert.java:127-144 | a cell renders as empty exactly when it is null or has empty text; any other value renders as its own text; a date renders as at least ten characters |
| Cells.FormatRowAt | src/main/java/thehyve/sas/Convert.java:127-146 | each cell's text lands at the cell's own index of the row |
| Cells.FormatDateForms | src/main/java/thehyve/sas/Convert.java:128-137 | a date with a time of day renders with its time; a midnight date renders as the date alone, which is the date-time form without " 00:00:00" |
| Cells.FormatDateRoundTrip | src/main/java/thehyve/sas/Convert.java:80-84 | for a valid date with a four-digit year, parsing the rendered text gives the date back, with its time when it is not midnight |
| Cells.NatToString | src/main/java/thehyve/sas/Convert.java:123 | a progress value renders as a non-empty run of decimal digits |
| Cells.ParseNatToString | src/main/java/thehyve/sas/Convert.java:123 | the decimal rendering of a number parses back to the number |
| Cells.PadRoundTrip | src/main/java/thehyve/sas/Convert.java:80-81 | a zero-padded date field has the requested width when the number fits, and parses back to the number |
| Locator.ReplaceAll | src/main/java/thehyve/sas/Convert.java:216-217 | Java's `String.replace` (also lines 232-233): every occurrence of a non-empty target, scanning left to right without overlaps, is replaced; `ReplaceFront`, `ReplaceAbsent` and `ReplaceKeeps` state its behaviour |
| Locator.FirstSegment | src/main/java/thehyve/sas/Convert.java:216 | taking element 0 of a split on "/" fails exactly when the text is non-empty and made of slashes only; otherwise the segment is a slash-free prefix of the text ending at its first "/" |
| Locator.FirstSegmentIsSplitHead | src/main/java/thehyve/sas/Convert.java:216 | `FirstSegment` is element 0 of Java's split on "/" (the pieces between slashes, trailing empty pieces dropped, a text without "/" its own only piece), and it is missing exactly when that split is empty |
| Locator.JavaSplit | src/main/java/thehyve/sas/Convert.java:216 | Java's `split("/")`, defined independently of `FirstSegment` from the pieces between slashes; `FirstSegmentIsSplitHead` relates the two |
| Locator.SplitLocator | src/main/java/thehyve/sas/Convert.java:215-217 | the split as written (also lines 231-233): bucket is element 0 of the split after removing every "gs://", object is the locator with every "gs://<bucket>/" removed; `SplitLocatorJoin`, `SplitLocatorNoObject` and `SplitLocatorMangles` state its results |
| Locator.SplitLocatorPrefix | src/main/java/thehyve/sas/Convert.java:216-217 | the corrected split, removing only the leading "gs://<bucket>/"; `SplitLocatorPrefixJoin` and `SplitsAgree` state its results |
| Locator.SplitLocatorJoin | src/main/java/thehyve/sas/Convert.java:215-217 | for a non-empty bucket without "/", when "gs://" occurs only at the start, the split gives back the bucket and the object name |
| Locator.SplitLocatorNoObject | src/main/java/thehyve/sas/Convert.java:231-233 | for a locator with no "/" after the bucket, the object name becomes the whole locator |
| Locator.SplitLocatorMangles | src/main/java/thehyve/sas/Convert.java:216-217 | the split as written turns "gs://b/a/gs://b/c" into bucket "b" and object "a/c" |
| Locator.SplitLocatorPrefixKeeps | src/main/java/thehyve/sas/Convert.java:216-217 | the corrected split turns "gs://b/a/gs://b/c" into bucket "b" and object "a/gs://b/c" |
| Locator.SplitLocatorPrefixJoin | src/main/java/thehyve/sas/Convert.java:216-217 | for a bucket without "/", the corrected split gives back the bucket and the object name for every object name |
| Locator.SplitsAgree | src/main/java/thehyve/sas/Convert.java:216-217 | for a non-empty bucket without "/", when "gs://" occurs only at the start of the locator, the split as written agrees with the corrected split |

## Left out

- Command-line handling (argument counts, usage text, choosing stdin, stdout, local files or cloud storage), the storage client and the fixed four-second wait on stdin are not modelled. Of `main`, only the `gs://` locator split is modelled.
- The SAS7BDAT decoder is not part of this model. Its output is a parameter: the column names and labels, the header row count, and the rows as cells.
- CSV encoding is not modelled: quoting, escaping, separators and line terminators. The model records the row of fields passed to each writer's `writeNext`.
- Flushing and closing the writers, and IOException paths, are not modelled. Every write is taken to succeed, and the catch-and-rethrow changes no outcome.
- The data writer is flushed and closed only after the loop (Convert.java lines 155-156). An assertion failure, a division by zero or an index exception escapes the loop, because only `IOException` is caught (line 162), and `main` does not catch it either. The data writer is then never flushed, so rows passed to its `writeNext` may never reach the data file. `DataRows` of an aborted run is the rows passed to `writeNext`, not the data file's content.
- Logging and the elapsed-time measurement are not modelled. They write nothing to the three files.
- Dates are broken-down calendar fields in GMT. `SimpleDateFormat` and time-zone conversion are not modelled. The time-of-day test reads the date in the JVM's default zone while formatting uses GMT; this can differ outside GMT and is not captured.
- Non-date, non-null values enter the model as their already rendered text. The `toString` of numbers and other objects is not modelled.
- The progress file's name is not modelled, only whether one was given. Each rewrite of the file is one write whose text replaces the file's content.
- Conversion.JavaDiv: its contract states the non-negative case, the sign and zero only. The body truncates toward zero for every sign. The row count is never negative in the routine.
- Conversion.Convert: the 64-bit wrap-around of `rowCount * 100` is not modelled, because it needs more than 9 * 10^16 rows. Counts are unbounded integers.
- Cells.FormatDateRoundTrip: holds for years up to 9999 only, because a wider year has more than four digits and the fixed-width parse does not apply.
- ConversionProperties.DataFileRows: describes the data file for completed runs only. For an aborted run, `MetadataFirst`, `StoppedIsFinal` and `ZeroTotalRowCount` state what was written.
- Locator.SplitLocator: `String.replace` is modelled for a non-empty target only, the case at both call sites.

## Findings

| source | as written | input that shows it | evidently intended | confidence | as-written member | corrected member |
|---|---|---|---|---|---|---|
| src/main/java/thehyve/sas/Convert.java:217 (also :233) | the object name is the locator with every occurrence of "gs://<bucket>/" removed | "gs://b/a/gs://b/c" gives object "a/c" | remove only the leading "gs://<bucket>/", giving object "a/gs://b/c" | high that the code does this; not executed | Locator.SplitLocatorMangles | Locator.SplitLocatorPrefixJoin |
