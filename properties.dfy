/**
 * What a conversion promises: the two metadata rows come first, the data
 * file holds the header and one row per row read, each row's cells replace
 * the previous row's, and the progress file goes through the percentages
 * in increasing order and ends at "100".
 */
module ConversionProperties {
  import opened Cells
  import opened Conversion

  /** A row the loop accepts: it fits in `outData`, and has exactly the
      schema's width when assertions are enabled. */
  predicate RowFits(schema: Schema, opts: Options, row: seq<Cell>)
  {
    |row| <= |schema.columns| && (opts.assertionsEnabled ==> |row| == |schema.columns|)
  }

  /** The inputs on which the loop raises no exception. */
  predicate Accepted(schema: Schema, rows: seq<seq<Cell>>, opts: Options)
  {
    (forall j :: 0 <= j < |rows| ==> RowFits(schema, opts, rows[j]))
    && (opts.progressFile && rows != [] ==> schema.totalRowCount != 0)
  }

  // ---------------------------------------------------------------------
  // One iteration

  /** While the loop runs, it has counted every row read, and `outData`
      keeps the schema's width. */
  lemma {:induction false} RunningCounts(schema: Schema, opts: Options, rows: seq<seq<Cell>>)
    requires RunRows(schema, opts, rows).Running?
    ensures RunRows(schema, opts, rows).rowCount == |rows|
    ensures |RunRows(schema, opts, rows).outData| == |schema.columns|
  {
    if rows != [] {
      RunningCounts(schema, opts, rows[..|rows| - 1]);
    }
  }

  /** What one running iteration does: the row fits, its cells are stored
      over `outData`, the count goes up by one, and the progress is
      updated when the percentage changed. */
  lemma StepAppends(schema: Schema, opts: Options, s: LoopState, data: seq<Cell>)
    requires s.Running? && Step(schema, opts, s, data).Running?
    ensures var t := Step(schema, opts, s, data);
      |data| <= |s.outData|
      && (opts.assertionsEnabled ==> |data| == |schema.columns|)
      && t.outData == Overlay(s.outData, FormatRow(data))
      && t.rowCount == s.rowCount + 1
      && (opts.progressFile ==> schema.totalRowCount != 0)
      && var checked := opts.progressFile && Percent(s.rowCount, schema.totalRowCount) != s.progress;
         t.progress == (if checked then Percent(s.rowCount, schema.totalRowCount) else s.progress)
         && t.log == s.log
                     + (if checked then [ProgressText(IntToString(t.progress))] else [])
                     + [DataRow(t.outData)]
  {
  }

  /** What one running iteration sends to each file: nothing to the
      metadata file, possibly a progress text, and the new `outData` to
      the data file. */
  lemma StepSinks(schema: Schema, opts: Options, s: LoopState, data: seq<Cell>)
    requires s.Running? && Step(schema, opts, s, data).Running?
    ensures var t := Step(schema, opts, s, data);
      var checked := opts.progressFile && Percent(s.rowCount, schema.totalRowCount) != s.progress;
      MetadataRows(t.log) == MetadataRows(s.log)
      && DataRows(t.log) == DataRows(s.log) + [t.outData]
      && ProgressTexts(t.log) == ProgressTexts(s.log) + (if checked then [IntToString(t.progress)] else [])
  {
    var t := Step(schema, opts, s, data);
    var checked := opts.progressFile && Percent(s.rowCount, schema.totalRowCount) != s.progress;
    var extra := if checked then [ProgressText(IntToString(t.progress))] else [];
    var last := DataRow(t.outData);
    assert t.log == (s.log + extra) + [last];
    assert MetadataRows(extra) == [] && DataRows(extra) == []
           && ProgressTexts(extra) == (if checked then [IntToString(t.progress)] else []) by {
      if checked {
        SinksOne(extra[0]);
      }
    }
    assert MetadataRows(t.log) == MetadataRows(s.log + extra)
           && DataRows(t.log) == DataRows(s.log + extra) + [t.outData]
           && ProgressTexts(t.log) == ProgressTexts(s.log + extra) by {
      SinksAppend(s.log + extra, [last]);
      SinksOne(last);
    }
    SinksAppend(s.log, extra);
  }

  lemma HeaderSinks(columns: seq<Column>)
    ensures MetadataRows(HeaderWrites(columns)) == [Names(columns), Labels(columns)]
    ensures DataRows(HeaderWrites(columns)) == [Names(columns)]
    ensures ProgressTexts(HeaderWrites(columns)) == []
  {
    HeaderShape(Names(columns), Labels(columns), Names(columns));
  }

  lemma HeaderShape(names: seq<string>, labels: seq<string>, header: seq<string>)
    ensures var h := [MetadataRow(names), MetadataRow(labels), DataRow(header)];
      MetadataRows(h) == [names, labels] && DataRows(h) == [header] && ProgressTexts(h) == []
  {
    var h1 := [MetadataRow(names)];
    var h2 := h1 + [MetadataRow(labels)];
    var h := h2 + [DataRow(header)];
    assert h1[..0] == [];
    assert h2[..1] == h1;
    assert h[..2] == h2;
    assert MetadataRows(h1) == [names] && DataRows(h1) == [];
    assert |ProgressTexts(h1)| == 0;
    assert MetadataRows(h2) == [names, labels] && DataRows(h2) == [] && ProgressTexts(h2) == [];
    assert [MetadataRow(names), MetadataRow(labels), DataRow(header)] == h;
  }

  // ---------------------------------------------------------------------
  // Which inputs complete

  /** The loop runs to the end of the input exactly when no row raises. */
  lemma {:induction false} RunningIff(schema: Schema, opts: Options, rows: seq<seq<Cell>>)
    ensures RunRows(schema, opts, rows).Running? <==> Accepted(schema, rows, opts)
  {
    if rows != [] {
      var p := rows[..|rows| - 1];
      RunningIff(schema, opts, p);
      var before := RunRows(schema, opts, p);
      if before.Running? {
        RunningCounts(schema, opts, p);
        StepRunningIff(schema, opts, before, rows[|rows| - 1]);
      }
      AcceptedLast(schema, rows, opts);
    }
  }

  /** A running iteration goes on exactly when its row fits and the
      progress division is defined. */
  lemma StepRunningIff(schema: Schema, opts: Options, s: LoopState, data: seq<Cell>)
    requires s.Running? && |s.outData| == |schema.columns|
    ensures Step(schema, opts, s, data).Running?
            <==> RowFits(schema, opts, data) && (opts.progressFile ==> schema.totalRowCount != 0)
  {
  }

  lemma AcceptedLast(schema: Schema, rows: seq<seq<Cell>>, opts: Options)
    requires rows != []
    ensures Accepted(schema, rows, opts)
            <==> Accepted(schema, rows[..|rows| - 1], opts) && RowFits(schema, opts, rows[|rows| - 1])
                 && (opts.progressFile ==> schema.totalRowCount != 0)
  {
    var p := rows[..|rows| - 1];
    if Accepted(schema, p, opts) && RowFits(schema, opts, rows[|rows| - 1]) {
      forall j | 0 <= j < |rows|
        ensures RowFits(schema, opts, rows[j])
      {
        if j < |p| {
          assert p[j] == rows[j];
        }
      }
    }
  }

  /** The conversion completes, without an exception, exactly on the
      accepted inputs. */
  lemma CompletesIff(schema: Schema, rows: seq<seq<Cell>>, opts: Options)
    ensures Converted(schema, rows, opts).outcome.Completed? <==> Accepted(schema, rows, opts)
  {
    RunningIff(schema, opts, rows);
  }

  /** The division by zero can only happen with a progress file and a
      zero row count: without a progress file the `&&` never evaluates it. */
  lemma {:induction false} DivisionOnlyWithProgressFile(schema: Schema, rows: seq<seq<Cell>>, opts: Options)
    requires Converted(schema, rows, opts).outcome == Aborted(DivisionByZero)
    ensures opts.progressFile && schema.totalRowCount == 0
  {
    if rows != [] {
      var p := rows[..|rows| - 1];
      if RunRows(schema, opts, p).Stopped? {
        DivisionOnlyWithProgressFile(schema, p, opts);
      }
    }
  }

  // ---------------------------------------------------------------------
  // Metadata

  /** The loop never writes to the metadata file. */
  lemma {:induction false} LoopMetadata(schema: Schema, opts: Options, rows: seq<seq<Cell>>)
    ensures var log := RunRows(schema, opts, rows).log;
      |log| >= 3 && log[..3] == HeaderWrites(schema.columns)
      && MetadataRows(log) == [Names(schema.columns), Labels(schema.columns)]
  {
    if rows == [] {
      HeaderSinks(schema.columns);
    } else {
      var p := rows[..|rows| - 1];
      LoopMetadata(schema, opts, p);
      var before := RunRows(schema, opts, p);
      StepKeepsMetadata(schema, opts, before, rows[|rows| - 1]);
      PrefixKept(before.log, RunRows(schema, opts, rows).log, 3);
    }
  }

  lemma PrefixKept(a: seq<Write>, b: seq<Write>, n: nat)
    requires a <= b && n <= |a|
    ensures b[..n] == a[..n]
  {
  }

  /** One iteration only appends to the log, and never a metadata row. */
  lemma StepKeepsMetadata(schema: Schema, opts: Options, s: LoopState, data: seq<Cell>)
    ensures s.log <= Step(schema, opts, s, data).log
    ensures MetadataRows(Step(schema, opts, s, data).log) == MetadataRows(s.log)
  {
    var t := Step(schema, opts, s, data);
    if s.Running? && !(opts.assertionsEnabled && |schema.columns| != |data|)
       && !(opts.progressFile && schema.totalRowCount == 0) {
      var checked := opts.progressFile && Percent(s.rowCount, schema.totalRowCount) != s.progress;
      var progress' := if checked then Percent(s.rowCount, schema.totalRowCount) else s.progress;
      var extra := if checked then [ProgressText(IntToString(progress'))] else [];
      assert MetadataRows(extra) == [] by {
        if checked {
          SinksOne(extra[0]);
        }
      }
      assert MetadataRows(s.log + extra) == MetadataRows(s.log) by {
        SinksAppend(s.log, extra);
      }
      if |data| <= |s.outData| {
        var last := DataRow(Overlay(s.outData, FormatRow(data)));
        assert t.log == (s.log + extra) + [last];
        assert MetadataRows((s.log + extra) + [last]) == MetadataRows(s.log + extra) by {
          SinksAppend(s.log + extra, [last]);
          SinksOne(last);
        }
      } else {
        assert t.log == s.log + extra;
      }
    } else {
      assert t.log == s.log;
    }
  }

  /** The metadata file receives exactly two rows, the names and then the
      labels in schema order, both written before the data file's header
      row, which is the column names again. */
  lemma MetadataFirst(schema: Schema, rows: seq<seq<Cell>>, opts: Options)
    ensures var w := Converted(schema, rows, opts).writes;
      |w| >= 3
      && w[..3] == [MetadataRow(Names(schema.columns)), MetadataRow(Labels(schema.columns)),
                    DataRow(Names(schema.columns))]
      && MetadataRows(w) == [Names(schema.columns), Labels(schema.columns)]
  {
    LoopMetadata(schema, opts, rows);
    var log := RunRows(schema, opts, rows).log;
    if RunRows(schema, opts, rows).Running? && opts.progressFile {
      SinksAppend(log, [ProgressText("100")]);
      SinksOne(ProgressText("100"));
    }
  }

  // ---------------------------------------------------------------------
  // The data file

  /** A data file that holds the column names as its header and then, per
      row read, `outData` after the row's formatted cells were stored over
      its first indices. */
  predicate DataFile(columns: seq<Column>, d: seq<seq<string>>, rows: seq<seq<Cell>>)
  {
    |d| == |rows| + 1
    && d[0] == Names(columns)
    && (forall j :: 0 <= j < |d| ==> |d[j]| == |columns|)
    && forall j :: 0 <= j < |rows| ==>
         |rows[j]| <= |columns| && d[j + 1] == Overlay(d[j], FormatRow(rows[j]))
  }

  lemma DataFileExtend(columns: seq<Column>, d: seq<seq<string>>, rows: seq<seq<Cell>>, row: seq<Cell>)
    requires DataFile(columns, d, rows) && |row| <= |columns|
    ensures DataFile(columns, d + [Overlay(d[|rows|], FormatRow(row))], rows + [row])
  {
    var next := Overlay(d[|rows|], FormatRow(row));
    var d', rows' := d + [next], rows + [row];
    forall j | 0 <= j < |rows'|
      ensures |rows'[j]| <= |columns| && d'[j + 1] == Overlay(d'[j], FormatRow(rows'[j]))
    {
      if j < |rows| {
        assert rows'[j] == rows[j] && d'[j + 1] == d[j + 1] && d'[j] == d[j];
      } else {
        assert rows'[j] == row && d'[j + 1] == next && d'[j] == d[|rows|];
      }
    }
  }

  /** One running iteration extends the data file by the new `outData`. */
  lemma DataFileStep(schema: Schema, opts: Options, s: LoopState, data: seq<Cell>, rows: seq<seq<Cell>>)
    requires s.Running? && Step(schema, opts, s, data).Running?
    requires DataFile(schema.columns, DataRows(s.log), rows) && DataRows(s.log)[|rows|] == s.outData
    ensures var t := Step(schema, opts, s, data);
      DataFile(schema.columns, DataRows(t.log), rows + [data]) && DataRows(t.log)[|rows| + 1] == t.outData
  {
    var t := Step(schema, opts, s, data);
    var d := DataRows(s.log);
    assert |data| <= |schema.columns|
           && t.outData == Overlay(d[|rows|], FormatRow(data))
           && DataRows(t.log) == d + [t.outData] by {
      StepAppends(schema, opts, s, data);
      StepSinks(schema, opts, s, data);
    }
    DataFileExtend(schema.columns, d, rows, data);
  }

  /** While the loop runs, the data file holds the header and one row per
      row read, and its last row is the current `outData`. */
  lemma {:induction false} LoopDataRows(schema: Schema, opts: Options, rows: seq<seq<Cell>>)
    requires RunRows(schema, opts, rows).Running?
    ensures DataFile(schema.columns, DataRows(RunRows(schema, opts, rows).log), rows)
    ensures DataRows(RunRows(schema, opts, rows).log)[|rows|] == RunRows(schema, opts, rows).outData
  {
    if rows == [] {
      HeaderSinks(schema.columns);
    } else {
      var p, last := rows[..|rows| - 1], rows[|rows| - 1];
      LoopDataRows(schema, opts, p);
      DataFileStep(schema, opts, RunRows(schema, opts, p), last, p);
      assert rows == p + [last];
    }
  }

  /** A completed conversion read every row: the data file holds the header
      and then exactly one row per row read, in read order, each of the
      schema's width; each holds the row's formatted cells at its first
      indices and, past the row's end, the previous row's values. */
  lemma DataFileRows(schema: Schema, rows: seq<seq<Cell>>, opts: Options)
    requires Converted(schema, rows, opts).outcome.Completed?
    ensures Converted(schema, rows, opts).outcome.rowCount == |rows|
    ensures DataFile(schema.columns, DataRows(Converted(schema, rows, opts).writes), rows)
  {
    RunningCounts(schema, opts, rows);
    LoopDataRows(schema, opts, rows);
    var log := RunRows(schema, opts, rows).log;
    assert DataRows(Converted(schema, rows, opts).writes) == DataRows(log) by {
      if opts.progressFile {
        SinksAppend(log, [ProgressText("100")]);
        SinksOne(ProgressText("100"));
      }
    }
  }

  /** When every row has the schema's width (the asserted precondition) and
      the progress division is defined, the conversion completes and each
      data row is exactly the formatted row: nothing of an earlier row
      survives in the reused array. */
  lemma WellFormedRows(schema: Schema, rows: seq<seq<Cell>>, opts: Options)
    requires forall j :: 0 <= j < |rows| ==> |rows[j]| == |schema.columns|
    requires opts.progressFile && rows != [] ==> schema.totalRowCount != 0
    ensures Converted(schema, rows, opts).outcome == Completed(|rows|)
    ensures DataRows(Converted(schema, rows, opts).writes) == [Names(schema.columns)] + FormatRows(rows)
  {
    CompletesIff(schema, rows, opts);
    DataFileRows(schema, rows, opts);
    DataFileFullRows(schema.columns, DataRows(Converted(schema, rows, opts).writes), rows);
  }

  /** Rows of the full width overwrite every cell. */
  lemma DataFileFullRows(columns: seq<Column>, d: seq<seq<string>>, rows: seq<seq<Cell>>)
    requires DataFile(columns, d, rows)
    requires forall j :: 0 <= j < |rows| ==> |rows[j]| == |columns|
    ensures d == [Names(columns)] + FormatRows(rows)
  {
    forall j | 0 <= j < |rows|
      ensures d[j + 1] == FormatRow(rows[j])
    {
      assert |FormatRow(rows[j])| == |d[j]|;
      assert d[j + 1] == Overlay(d[j], FormatRow(rows[j]));
    }
  }

  /** The formatted rows, one per row read. */
  function FormatRows(rows: seq<seq<Cell>>): (r: seq<seq<string>>)
    ensures |r| == |rows|
    ensures forall j :: 0 <= j < |rows| ==> r[j] == FormatRow(rows[j])
  {
    if rows == [] then [] else FormatRows(rows[..|rows| - 1]) + [FormatRow(rows[|rows| - 1])]
  }

  /** With assertions disabled, a row shorter than the schema leaves the
      previous row's values in the cells it does not reach: the first data
      row after the header then repeats the column names there. */
  lemma ShortRowKeepsStaleCells(schema: Schema, rows: seq<seq<Cell>>, opts: Options, i: nat)
    requires Converted(schema, rows, opts).outcome.Completed?
    requires rows != [] && |rows[0]| <= i < |schema.columns|
    ensures var d := DataRows(Converted(schema, rows, opts).writes);
      |d| > 1 && i < |d[1]| && d[1][i] == schema.columns[i].name
  {
    DataFileRows(schema, rows, opts);
    var d := DataRows(Converted(schema, rows, opts).writes);
    OverlayAt(d[0], FormatRow(rows[0]), i);
  }

  // ---------------------------------------------------------------------
  // The progress file

  /** The percentages at which the progress file is rewritten, stated on
      the row indices alone: before row j (j rows done) the percentage is
      written when j is the first row or the percentage differs from the
      one before row j - 1. */
  function Checkpoints(n: nat, totalRowCount: int): (r: seq<int>)
    requires n == 0 || totalRowCount != 0
  {
    if n == 0 then []
    else
      Checkpoints(n - 1, totalRowCount)
      + (if n == 1 || Percent(n - 1, totalRowCount) != Percent(n - 2, totalRowCount)
         then [Percent(n - 1, totalRowCount)] else [])
  }

  /** The texts `Long.toString` gives for a sequence of values. */
  function Texts(values: seq<int>): (r: seq<string>)
    ensures |r| == |values|
    ensures forall i :: 0 <= i < |values| ==> r[i] == IntToString(values[i])
  {
    if values == [] then [] else Texts(values[..|values| - 1]) + [IntToString(values[|values| - 1])]
  }

  lemma TextsAppend(values: seq<int>, v: int)
    ensures Texts(values + [v]) == Texts(values) + [IntToString(v)]
  {
    assert (values + [v])[..|values|] == values;
  }

  /** While the loop runs, the last percentage computed is the one before
      the last row, and the progress file has received exactly the
      checkpoints; without a progress file nothing is written to it. */
  lemma {:induction false} LoopProgress(schema: Schema, opts: Options, rows: seq<seq<Cell>>)
    requires RunRows(schema, opts, rows).Running?
    ensures var s := RunRows(schema, opts, rows);
      if opts.progressFile && rows != [] then
        schema.totalRowCount != 0
        && s.progress == Percent(|rows| - 1, schema.totalRowCount)
        && ProgressTexts(s.log) == Texts(Checkpoints(|rows|, schema.totalRowCount))
      else
        s.progress == -1 && ProgressTexts(s.log) == []
  {
    if rows == [] {
      HeaderSinks(schema.columns);
    } else {
      var p, last := rows[..|rows| - 1], rows[|rows| - 1];
      var before := RunRows(schema, opts, p);
      StepAppends(schema, opts, before, last);
      StepSinks(schema, opts, before, last);
      LoopProgress(schema, opts, p);
      RunningCounts(schema, opts, p);
      if opts.progressFile {
        var t := schema.totalRowCount;
        if p == [] {
          assert Percent(0, t) == 0;
          assert Checkpoints(1, t) == [Percent(0, t)];
        } else {
          var c := Checkpoints(|p|, t);
          if Percent(|rows| - 1, t) != Percent(|rows| - 2, t) {
            TextsAppend(c, Percent(|rows| - 1, t));
          } else {
            assert Checkpoints(|rows|, t) == c;
          }
        }
      }
    }
  }

  /** The progress file's writes: with a progress file, each checkpoint in
      order and then "100", so its final content is "100"; without one,
      none. */
  lemma ProgressFileWrites(schema: Schema, rows: seq<seq<Cell>>, opts: Options)
    requires Converted(schema, rows, opts).outcome.Completed?
    ensures opts.progressFile && rows != [] ==> schema.totalRowCount != 0
    ensures var t := ProgressTexts(Converted(schema, rows, opts).writes);
      if opts.progressFile then
        (rows == [] ==> t == ["100"])
        && (rows != [] ==> t == Texts(Checkpoints(|rows|, schema.totalRowCount)) + ["100"])
        && t[|t| - 1] == "100"
      else t == []
  {
    LoopProgress(schema, opts, rows);
    var log := RunRows(schema, opts, rows).log;
    if opts.progressFile {
      SinksAppend(log, [ProgressText("100")]);
      SinksOne(ProgressText("100"));
    }
  }

  /** Without a progress file nothing is ever written to one, whether the
      run completes or aborts. */
  lemma NoProgressFileNoWrites(schema: Schema, rows: seq<seq<Cell>>, opts: Options)
    ensures !opts.progressFile ==> ProgressTexts(Converted(schema, rows, opts).writes) == []
  {
    if !opts.progressFile {
      LoopWithoutProgressFile(schema, opts, rows);
    }
  }

  lemma {:induction false} LoopWithoutProgressFile(schema: Schema, opts: Options, rows: seq<seq<Cell>>)
    requires !opts.progressFile
    ensures ProgressTexts(RunRows(schema, opts, rows).log) == []
  {
    if rows == [] {
      HeaderSinks(schema.columns);
    } else {
      var p := rows[..|rows| - 1];
      LoopWithoutProgressFile(schema, opts, p);
      StepWithoutProgressFile(schema, opts, RunRows(schema, opts, p), rows[|rows| - 1]);
    }
  }

  /** Without a progress file an iteration adds nothing for that file. */
  lemma StepWithoutProgressFile(schema: Schema, opts: Options, s: LoopState, data: seq<Cell>)
    requires !opts.progressFile
    ensures ProgressTexts(Step(schema, opts, s, data).log) == ProgressTexts(s.log)
  {
    var t := Step(schema, opts, s, data);
    if s.Running? && t.Running? {
      StepSinks(schema, opts, s, data);
    }
  }

  lemma {:induction false} MulAtLeast(t: nat, k: nat)
    requires 1 <= k
    ensures t * k >= t
  {
    if k > 1 {
      MulAtLeast(t, k - 1);
      assert t * k == t * (k - 1) + t;
    }
  }

  lemma MulStep(t: nat, a: int, b: int)
    ensures a > b ==> t * a >= t * b + t
  {
    if a > b {
      var k := a - b;
      assert t * a == t * b + t * k;
      MulAtLeast(t, k);
    }
  }

  lemma DivMonotone(x: int, y: int, t: int)
    requires 0 <= x <= y && 0 < t
    ensures x / t <= y / t
  {
    var qx, qy := x / t, y / t;
    assert x == t * qx + x % t && 0 <= x % t < t;
    assert y == t * qy + y % t && 0 <= y % t < t;
    MulStep(t, qx, qy);
  }

  lemma DivBelow(x: int, t: int, k: int)
    requires 0 <= x < k * t && 0 < t
    ensures x / t < k
  {
  }

  /** With a positive row count the checkpoints start at 0, strictly
      increase, include the percentage before every row, and stay below 100
      while no more rows are read than the file's header announces. */
  lemma CheckpointsIncrease(n: nat, totalRowCount: int)
    requires totalRowCount > 0
    ensures var c := Checkpoints(n, totalRowCount);
      (n > 0 ==> |c| > 0 && c[0] == 0 && c[|c| - 1] == Percent(n - 1, totalRowCount))
      && Increasing(c)
      && (forall j :: 0 <= j < n ==> Percent(j, totalRowCount) in c)
      && (forall i :: 0 <= i < |c| ==> 0 <= c[i])
      && (n <= totalRowCount ==> forall i :: 0 <= i < |c| ==> c[i] < 100)
  {
    CheckpointsOrdered(n, totalRowCount);
    CheckpointsInRange(n, totalRowCount);
  }

  lemma {:induction false} CheckpointsOrdered(n: nat, t: int)
    requires t > 0
    ensures var c := Checkpoints(n, t);
      (n > 0 ==> |c| > 0 && c[0] == 0 && c[|c| - 1] == Percent(n - 1, t))
      && Increasing(c)
      && (forall j :: 0 <= j < n ==> Percent(j, t) in c)
  {
    if n > 0 {
      CheckpointsOrdered(n - 1, t);
      var c, c' := Checkpoints(n - 1, t), Checkpoints(n, t);
      var v := Percent(n - 1, t);
      if n == 1 {
        assert c' == [v];
        assert v == 0;
      } else {
        var u := Percent(n - 2, t);
        assert u <= v by {
          DivMonotone((n - 2) * 100, (n - 1) * 100, t);
        }
        if v != u {
          assert c' == c + [v];
          IncreasingAppend(c, v);
        } else {
          assert c' == c;
        }
      }
    }
  }

  /** The checkpoints lie between the first one, 0, and the last one, the
      percentage before the last row. */
  lemma CheckpointsInRange(n: nat, t: int)
    requires t > 0
    ensures var c := Checkpoints(n, t);
      (forall i :: 0 <= i < |c| ==> 0 <= c[i])
      && (n <= t ==> forall i :: 0 <= i < |c| ==> c[i] < 100)
  {
    CheckpointsOrdered(n, t);
    var c := Checkpoints(n, t);
    if n > 0 {
      if n <= t {
        DivBelow((n - 1) * 100, t, 100);
      }
      forall i | 0 <= i < |c|
        ensures 0 <= c[i] && (n <= t ==> c[i] < 100)
      {
        if 0 < i {
          assert c[0] < c[i];
        }
        if i < |c| - 1 {
          assert c[i] < c[|c| - 1];
        }
      }
    }
  }

  predicate Increasing(c: seq<int>)
  {
    forall i, j :: 0 <= i < j < |c| ==> c[i] < c[j]
  }

  lemma IncreasingAppend(c: seq<int>, v: int)
    requires Increasing(c) && c != [] && c[|c| - 1] < v
    ensures Increasing(c + [v])
  {
    var c' := c + [v];
    forall i, j | 0 <= i < j < |c'|
      ensures c'[i] < c'[j]
    {
      if j == |c| {
        assert c[i] <= c[|c| - 1];
      }
    }
  }

  /** With no row count but a progress file, a first row that passes the
      width assertion (always, with assertions off) raises the division by
      zero before anything is written for it, and a first row of the wrong
      width with assertions on fails the assertion first; an empty input
      completes with "100" as the only progress write. */
  lemma ZeroTotalRowCount(schema: Schema, rows: seq<seq<Cell>>, opts: Options)
    requires opts.progressFile && schema.totalRowCount == 0
    ensures rows == [] ==>
      Converted(schema, rows, opts) == Run(Completed(0), HeaderWrites(schema.columns) + [ProgressText("100")])
    ensures rows != [] && (opts.assertionsEnabled ==> |rows[0]| == |schema.columns|) ==>
      Converted(schema, rows, opts) == Run(Aborted(DivisionByZero), HeaderWrites(schema.columns))
    ensures rows != [] && opts.assertionsEnabled && |rows[0]| != |schema.columns| ==>
      Converted(schema, rows, opts) == Run(Aborted(AssertionFailed), HeaderWrites(schema.columns))
  {
    if rows != [] {
      assert rows[..1][..0] == [];
      StoppedIsFinal(schema, opts, rows, 1);
    }
  }

  /** The checkpoints of a four-row and a three-row file: the
      percentage is checked before each row, so the last checkpoint is the
      one before the last row and the 100 comes only from the final write. */
  lemma CheckpointExamples()
    ensures Checkpoints(4, 4) == [0, 25, 50, 75]
    ensures Checkpoints(3, 3) == [0, 33, 66]
  {
    assert Checkpoints(1, 4) == [0];
    assert Checkpoints(2, 4) == [0, 25];
    assert Checkpoints(3, 4) == [0, 25, 50];
    assert Checkpoints(1, 3) == [0];
    assert Checkpoints(2, 3) == [0, 33];
  }
}
