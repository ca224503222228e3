/**
 * The conversion of one SAS file into a CSV data file, a two-row CSV
 * metadata file and an optional progress file.
 *
 * The three outputs are observed together as one ordered log of writes:
 * a row passed to the metadata writer's `writeNext`, a row passed to the
 * data writer's `writeNext`, or a progress file overwritten with a text.
 * Filtering the log by sink gives the rows passed to each writer and the
 * texts written to the progress file; the last progress text is the
 * progress file's content. The data writer is flushed only after the loop,
 * so on an exception its rows are passed to `writeNext` but need not reach
 * the file.
 *
 * The specification function `Converted` follows the loop step by step
 * (`Step`, folded over the rows by `RunRows`); the method `Convert` does the
 * same work on the reused `metadata` and `outData` arrays and is proved
 * equal to it; the lemmas state what the conversion promises.
 */
module Conversion {
  import opened Cells

  /** A column of the schema; only its name and label are used. */
  datatype Column = Column(name: string, labelText: string)

  /** What the reader knows before the first row: the columns and the row
      count recorded in the file's header. */
  datatype Schema = Schema(columns: seq<Column>, totalRowCount: int)

  /** Whether a progress file name was given, and whether the JVM runs with
      assertions enabled (they are disabled unless the JVM is told otherwise). */
  datatype Options = Options(progressFile: bool, assertionsEnabled: bool)

  /** One observable write. */
  datatype Write =
    | MetadataRow(fields: seq<string>)
    | DataRow(fields: seq<string>)
    | ProgressText(text: string)

  /** The unchecked exceptions the row loop can raise; none is caught. */
  datatype Failure = AssertionFailed | DivisionByZero | IndexOutOfBounds

  datatype Outcome = Completed(rowCount: nat) | Aborted(failure: Failure)

  /** How a conversion ends, with every write it made on the way. */
  datatype Run = Run(outcome: Outcome, writes: seq<Write>)

  /** The loop's state between two rows: the counters, the contents of the
      reused `outData` array and the writes so far; or the exception that
      ended it. */
  datatype LoopState =
    | Running(rowCount: nat, progress: int, outData: seq<string>, log: seq<Write>)
    | Stopped(failure: Failure, log: seq<Write>)

  // ---------------------------------------------------------------------
  // Sinks

  /** The rows passed to the metadata writer, in order. */
  function MetadataRows(ws: seq<Write>): (r: seq<seq<string>>)
  {
    if ws == [] then []
    else MetadataRows(ws[..|ws| - 1]) + (if ws[|ws| - 1].MetadataRow? then [ws[|ws| - 1].fields] else [])
  }

  /** The rows passed to the data writer, in order. */
  function DataRows(ws: seq<Write>): (r: seq<seq<string>>)
  {
    if ws == [] then []
    else DataRows(ws[..|ws| - 1]) + (if ws[|ws| - 1].DataRow? then [ws[|ws| - 1].fields] else [])
  }

  /** The texts the progress file is overwritten with, in order; the last
      one is its content. */
  function ProgressTexts(ws: seq<Write>): (r: seq<string>)
  {
    if ws == [] then []
    else ProgressTexts(ws[..|ws| - 1]) + (if ws[|ws| - 1].ProgressText? then [ws[|ws| - 1].text] else [])
  }

  /** Each sink gets its writes of a longer log in the log's order. */
  lemma {:induction false} SinksAppend(a: seq<Write>, b: seq<Write>)
    ensures MetadataRows(a + b) == MetadataRows(a) + MetadataRows(b)
    ensures DataRows(a + b) == DataRows(a) + DataRows(b)
    ensures ProgressTexts(a + b) == ProgressTexts(a) + ProgressTexts(b)
    decreases |b|
  {
    if b == [] {
      assert a + b == a;
    } else {
      var b' := b[..|b| - 1];
      assert (a + b)[..|a + b| - 1] == a + b';
      SinksAppend(a, b');
    }
  }

  lemma SinksOne(w: Write)
    ensures MetadataRows([w]) == if w.MetadataRow? then [w.fields] else []
    ensures DataRows([w]) == if w.DataRow? then [w.fields] else []
    ensures ProgressTexts([w]) == if w.ProgressText? then [w.text] else []
  {
    assert [w][..0] == [];
  }

  // ---------------------------------------------------------------------
  // Columns, arithmetic and the reused output row

  function Names(columns: seq<Column>): (r: seq<string>)
    ensures |r| == |columns|
    ensures forall i :: 0 <= i < |columns| ==> r[i] == columns[i].name
  {
    if columns == [] then [] else Names(columns[..|columns| - 1]) + [columns[|columns| - 1].name]
  }

  function Labels(columns: seq<Column>): (r: seq<string>)
    ensures |r| == |columns|
    ensures forall i :: 0 <= i < |columns| ==> r[i] == columns[i].labelText
  {
    if columns == [] then [] else Labels(columns[..|columns| - 1]) + [columns[|columns| - 1].labelText]
  }

  lemma DivNonNegative(x: int, y: int)
    requires 0 <= x && 0 < y
    ensures x / y >= 0
  {
  }

  /** Java's integer division, which truncates toward zero (Dafny's `/` is
      Euclidean, which differs when the dividend or divisor is negative). */
  function JavaDiv(a: int, b: int): (q: int)
    requires b != 0
    ensures 0 <= a && 0 < b ==> q == a / b
    ensures (a < 0) != (b < 0) ==> q <= 0
    ensures a == 0 ==> q == 0
  {
    if 0 <= a && 0 < b then a / b
    else if a < 0 && b < 0 then (-a) / (-b)
    else if a < 0 then DivNonNegative(-a, b); -((-a) / b)
    else DivNonNegative(a, -b); -(a / (-b))
  }

  /** The percentage checked before a row, when `rowCount` rows are done. */
  function Percent(rowCount: int, totalRowCount: int): (r: int)
    requires totalRowCount != 0
  {
    JavaDiv(rowCount * 100, totalRowCount)
  }

  /** `outData` after the cells of a row were stored at its first indices:
      the cells beyond the row's length keep their earlier values. */
  function Overlay(outData: seq<string>, cells: seq<string>): (r: seq<string>)
    requires |cells| <= |outData|
    ensures |r| == |outData|
  {
    cells + outData[|cells|..]
  }

  lemma OverlayAt(outData: seq<string>, cells: seq<string>, i: nat)
    requires |cells| <= |outData| && i < |outData|
    ensures Overlay(outData, cells)[i] == if i < |cells| then cells[i] else outData[i]
  {
  }

  // ---------------------------------------------------------------------
  // The conversion, step by step

  /** The three writes made before the row loop: names and labels to the
      metadata file, then the names as the data file's header row. */
  function HeaderWrites(columns: seq<Column>): (r: seq<Write>)
  {
    [MetadataRow(Names(columns)), MetadataRow(Labels(columns)), DataRow(Names(columns))]
  }

  function Initial(schema: Schema): (r: LoopState)
  {
    Running(0, -1, Names(schema.columns), HeaderWrites(schema.columns))
  }

  /** One iteration of the row loop. */
  function Step(schema: Schema, opts: Options, s: LoopState, data: seq<Cell>): (r: LoopState)
  {
    match s
    case Stopped(_, _) => s
    case Running(rowCount, progress, outData, log) =>
      if opts.assertionsEnabled && |schema.columns| != |data| then Stopped(AssertionFailed, log)
      else if opts.progressFile && schema.totalRowCount == 0 then Stopped(DivisionByZero, log)
      else
        var checked := opts.progressFile && Percent(rowCount, schema.totalRowCount) != progress;
        var progress' := if checked then Percent(rowCount, schema.totalRowCount) else progress;
        var log' := if checked then log + [ProgressText(IntToString(progress'))] else log;
        if |data| > |outData| then Stopped(IndexOutOfBounds, log')
        else
          var out := Overlay(outData, FormatRow(data));
          Running(rowCount + 1, progress', out, log' + [DataRow(out)])
  }

  /** The loop state after the given rows, read in order. */
  function RunRows(schema: Schema, opts: Options, rows: seq<seq<Cell>>): (r: LoopState)
  {
    if rows == [] then Initial(schema)
    else Step(schema, opts, RunRows(schema, opts, rows[..|rows| - 1]), rows[|rows| - 1])
  }

  /** The whole conversion of a file whose reader delivers `rows`. */
  function Converted(schema: Schema, rows: seq<seq<Cell>>, opts: Options): (r: Run)
  {
    match RunRows(schema, opts, rows)
    case Stopped(f, log) => Run(Aborted(f), log)
    case Running(rowCount, _, _, log) =>
      Run(Completed(rowCount), if opts.progressFile then log + [ProgressText("100")] else log)
  }

  // ---------------------------------------------------------------------
  // The conversion as the source performs it

  /** The row loop and the writes around it, on the reused arrays. */
  method Convert(schema: Schema, rows: seq<seq<Cell>>, opts: Options) returns (outcome: Outcome, writes: seq<Write>)
    ensures Run(outcome, writes) == Converted(schema, rows, opts)
  {
    var columns := schema.columns;
    var metadata := new string[|columns|];
    var outData := new string[|columns|];
    writes := [];

    StoreNames(metadata, columns);
    writes := writes + [MetadataRow(metadata[..])];
    StoreLabels(metadata, columns);
    writes := writes + [MetadataRow(metadata[..])];
    StoreNames(outData, columns);
    writes := writes + [DataRow(outData[..])];

    var rowCount: nat := 0;
    var progress := -1;
    var k := 0;
    while k < |rows|
      invariant 0 <= k <= |rows|
      invariant outData.Length == |columns|
      invariant RunRows(schema, opts, rows[..k]) == Running(rowCount, progress, outData[..], writes)
    {
      assert rows[..k + 1][..k] == rows[..k];
      var next := ReadRow(schema, opts, outData, rowCount, progress, writes, rows[k]);
      if next.Stopped? {
        outcome, writes := Aborted(next.failure), next.log;
        StoppedIsFinal(schema, opts, rows, k + 1);
        return;
      }
      rowCount, progress, writes := next.rowCount, next.progress, next.log;
      k := k + 1;
    }
    assert rows[..k] == rows;
    if opts.progressFile {
      writes := writes + [ProgressText("100")];
    }
    outcome := Completed(rowCount);
  }

  /** One pass of the read loop's body: the width assertion, the progress
      check, and the row's cells stored into `outData`. */
  method ReadRow(schema: Schema, opts: Options, outData: array<string>, rowCount: nat, progress: int,
                 writes: seq<Write>, data: seq<Cell>) returns (next: LoopState)
    requires outData.Length == |schema.columns|
    modifies outData
    ensures next == Step(schema, opts, Running(rowCount, progress, old(outData[..]), writes), data)
    ensures next.Running? ==> next.outData == outData[..]
  {
    if opts.assertionsEnabled && |schema.columns| != |data| {
      return Stopped(AssertionFailed, writes);
    }
    var progress', writes' := progress, writes;
    if opts.progressFile {
      if schema.totalRowCount == 0 {
        return Stopped(DivisionByZero, writes);
      }
      if Percent(rowCount, schema.totalRowCount) != progress {
        progress' := Percent(rowCount, schema.totalRowCount);
        writes' := writes + [ProgressText(IntToString(progress'))];
      }
    }
    var stored := StoreCells(outData, data);
    if !stored {
      return Stopped(IndexOutOfBounds, writes');
    }
    next := Running(rowCount + 1, progress', outData[..], writes' + [DataRow(outData[..])]);
  }

  /** Stores the column names at their indices of an array of the schema's width. */
  method StoreNames(a: array<string>, columns: seq<Column>)
    requires a.Length == |columns|
    modifies a
    ensures a[..] == Names(columns)
  {
    for i := 0 to |columns|
      invariant forall j :: 0 <= j < i ==> a[j] == columns[j].name
    {
      a[i] := columns[i].name;
    }
    assert a[..] == Names(columns);
  }

  /** Stores the column labels at their indices of an array of the schema's width. */
  method StoreLabels(a: array<string>, columns: seq<Column>)
    requires a.Length == |columns|
    modifies a
    ensures a[..] == Labels(columns)
  {
    for i := 0 to |columns|
      invariant forall j :: 0 <= j < i ==> a[j] == columns[j].labelText
    {
      a[i] := columns[i].labelText;
    }
    assert a[..] == Labels(columns);
  }

  /** The inner loop: every cell of the row is formatted and stored at its
      index of `outData`; a row longer than `outData` fails once the index
      runs past its end. */
  method StoreCells(outData: array<string>, data: seq<Cell>) returns (stored: bool)
    modifies outData
    ensures stored <==> |data| <= outData.Length
    ensures stored ==> outData[..] == Overlay(old(outData[..]), FormatRow(data))
  {
    var i := 0;
    while i < |data|
      invariant 0 <= i <= |data|
      invariant i <= outData.Length
      invariant forall j :: 0 <= j < i ==> outData[j] == FormatCell(data[j])
      invariant forall j :: i <= j < outData.Length ==> outData[j] == old(outData[j])
    {
      if i >= outData.Length {
        return false;
      }
      outData[i] := FormatCell(data[i]);
      i := i + 1;
    }
    forall j | 0 <= j < outData.Length
      ensures outData[j] == Overlay(old(outData[..]), FormatRow(data))[j]
    {
      OverlayAt(old(outData[..]), FormatRow(data), j);
      if j < |data| {
        FormatRowAt(data, j);
      }
    }
    assert outData[..] == Overlay(old(outData[..]), FormatRow(data));
    return true;
  }

  /** Once an exception has ended the loop, later rows change nothing. */
  lemma {:induction false} StoppedIsFinal(schema: Schema, opts: Options, rows: seq<seq<Cell>>, k: nat)
    requires k <= |rows|
    requires RunRows(schema, opts, rows[..k]).Stopped?
    ensures RunRows(schema, opts, rows) == RunRows(schema, opts, rows[..k])
    decreases |rows| - k
  {
    if k == |rows| {
      assert rows[..k] == rows;
    } else {
      var p := rows[..|rows| - 1];
      assert p[..k] == rows[..k];
      StoppedIsFinal(schema, opts, p, k);
    }
  }
}
