/** `DataFlow` (`proxiflow/core/dataflow.py`) and `Preprocessor`
    (`prepflow/preprocessor/preprocessor.py`): two copies of the earlier
    cleaner. Duplicate removal runs first, then at most one missing-value
    strategy (drop, mean, mode). Failures are not rewrapped. */
module Legacy {
  import opened Wrappers
  import opened Seqs
  import opened Tables
  import opened Errors
  import opened Transforms
  import Cleaner

  /** The switches read from `cleaning_config`. */
  datatype Flags = Flags(removeDuplicates: bool, drop: bool, mean: bool, mode: bool)

  /** polars' `fill_null` called with neither a value nor a strategy. */
  const NoFillMessage := "must specify either a fill 'value' or 'strategy'"

  /** Reading `mode()[0]` of an empty column. */
  const NoModeMessage := "index 0 is out of bounds for sequence of length 0"

  /** `v` occurs in `c` at least as often as any other cell, nulls included. */
  predicate IsMostFrequent(v: Cell, c: seq<Cell>) {
    v in c && forall w :: w in c ==> multiset(c)[w] <= multiset(c)[v]
  }

  /** polars' `mode()[0]`: one most frequent cell of a non-empty column. */
  ghost predicate IsModeOracle(mode: seq<Cell> -> Cell) {
    forall c :: |c| > 0 ==> IsMostFrequent(mode(c), c)
  }

  /** A numeric column whose `mean()` is null. */
  predicate NoMean(t: Table, j: nat)
    requires WellFormed(t) && j < |t.fields|
  {
    IsNumeric(t.fields[j].dtype) && |Numbers(Column(t, j))| == 0
  }

  /** `mean_missing`: `fill_null(mean())` per Int64/Float64 column. A column
      whose mean is null (no non-null value) makes `fill_null(None)` raise;
      otherwise the result is the mean fill. */
  function MeanMissing(t: Table): (r: Result<Table, Error>)
    requires WellFormed(t)
    ensures r.Failure? <==> exists j :: 0 <= j < |t.fields| && NoMean(t, j)
    ensures r.Failure? ==> r.error == ValueError(NoFillMessage)
    ensures r.Success? ==> r.value == FillMean(t)
    ensures r.Success? ==> forall i, j :: 0 <= i < |t.rows| && 0 <= j < |t.fields| && IsNumeric(t.fields[j].dtype) ==>
              r.value.rows[i][j].Some?
  {
    if exists j :: 0 <= j < |t.fields| && NoMean(t, j) then Failure(ValueError(NoFillMessage))
    else
      assert forall i, j :: 0 <= i < |t.rows| && 0 <= j < |t.fields| && IsNumeric(t.fields[j].dtype) ==>
               FillMean(t).rows[i][j].Some? by {
        forall i, j | 0 <= i < |t.rows| && 0 <= j < |t.fields| && IsNumeric(t.fields[j].dtype)
          ensures FillMean(t).rows[i][j].Some?
        {
          assert !NoMean(t, j);
        }
      }
      Success(FillMean(t))
  }

  /** The dtypes `mode_missing` fills. */
  predicate ModeFilled(d: DType) {
    d == Int64 || d == Utf8
  }

  function FillModeCell(mode: seq<Cell> -> Cell, f: Field, c: seq<Cell>, x: Cell): Cell {
    if ModeFilled(f.dtype) && x.None? then mode(c) else x
  }

  /** Every Int64/Utf8 null replaced by the column's mode. */
  function FillMode(t: Table, mode: seq<Cell> -> Cell): (r: Table)
    requires WellFormed(t) && IsModeOracle(mode)
    ensures WellFormed(r) && r.fields == t.fields && |r.rows| == |t.rows|
    ensures forall i, j :: 0 <= i < |t.rows| && 0 <= j < |t.fields| ==>
              r.rows[i][j] == if ModeFilled(t.fields[j].dtype) && t.rows[i][j].None? then mode(Column(t, j)) else t.rows[i][j]
  {
    var r := MapColumns(t, KeepField, (f, c, x) => FillModeCell(mode, f, c, x));
    assert r.fields == t.fields;
    FillModeFits(t, mode, r);
    r
  }

  lemma FillModeFits(t: Table, mode: seq<Cell> -> Cell, r: Table)
    requires WellFormed(t) && IsModeOracle(mode)
    requires r.fields == t.fields && |r.rows| == |t.rows|
    requires forall i :: 0 <= i < |t.rows| ==> |r.rows[i]| == |t.fields|
    requires forall i, j :: 0 <= i < |t.rows| && 0 <= j < |t.fields| ==>
               r.rows[i][j] == FillModeCell(mode, t.fields[j], Column(t, j), t.rows[i][j])
    ensures WellFormed(r)
  {
    forall i | 0 <= i < |r.rows| ensures RowFits(r.fields, r.rows[i]) {
      assert RowFits(t.fields, t.rows[i]);
      forall j | 0 <= j < |t.fields| ensures Fits(r.fields[j].dtype, r.rows[i][j]) {
        if ModeFilled(t.fields[j].dtype) && t.rows[i][j].None? {
          var c := Column(t, j);
          assert IsMostFrequent(mode(c), c);
          var k :| 0 <= k < |c| && c[k] == mode(c);
          assert RowFits(t.fields, t.rows[k]);
        }
      }
    }
  }

  /** `mode_missing`: `fill_null(mode()[0])` per Int64/Utf8 column. On a
      table without rows `mode()[0]` is out of range; a null mode makes
      `fill_null(None)` raise. Float64 and other columns are untouched. */
  function ModeMissing(t: Table, mode: seq<Cell> -> Cell): (r: Result<Table, Error>)
    requires WellFormed(t) && IsModeOracle(mode)
    ensures r.Failure? <==> exists j :: 0 <= j < |t.fields| && ModeFilled(t.fields[j].dtype) && (|t.rows| == 0 || mode(Column(t, j)) == None)
    ensures r.Failure? && |t.rows| == 0 ==> r.error == IndexError(NoModeMessage)
    ensures r.Failure? && |t.rows| > 0 ==> r.error == ValueError(NoFillMessage)
    ensures r.Success? ==> r.value == FillMode(t, mode)
    ensures r.Success? ==> forall i, j :: 0 <= i < |t.rows| && 0 <= j < |t.fields| && ModeFilled(t.fields[j].dtype) ==>
              r.value.rows[i][j].Some?
  {
    if exists j :: 0 <= j < |t.fields| && ModeFilled(t.fields[j].dtype) && |t.rows| == 0 then
      Failure(IndexError(NoModeMessage))
    else if exists j :: 0 <= j < |t.fields| && ModeFilled(t.fields[j].dtype) && mode(Column(t, j)) == None then
      Failure(ValueError(NoFillMessage))
    else
      var r := FillMode(t, mode);
      assert forall i, j :: 0 <= i < |t.rows| && 0 <= j < |t.fields| && ModeFilled(t.fields[j].dtype) ==> r.rows[i][j].Some? by {
        forall i, j | 0 <= i < |t.rows| && 0 <= j < |t.fields| && ModeFilled(t.fields[j].dtype)
          ensures r.rows[i][j].Some?
        {
          assert mode(Column(t, j)) != None;
        }
      }
      Success(r)
  }

  /** Each filled cell holds a most frequent cell of the original column,
      and every other cell is unchanged. */
  lemma ModeMissingFillsWithMode(t: Table, mode: seq<Cell> -> Cell, i: nat, j: nat)
    requires WellFormed(t) && IsModeOracle(mode) && ModeMissing(t, mode).Success?
    requires i < |t.rows| && j < |t.fields|
    ensures var y := ModeMissing(t, mode).value.rows[i][j];
            if ModeFilled(t.fields[j].dtype) && t.rows[i][j].None? then y.Some? && IsMostFrequent(y, Column(t, j))
            else y == t.rows[i][j]
  {
    assert |Column(t, j)| > 0;
  }

  /** `clean_data` of `DataFlow` and of `Preprocessor`. */
  function CleanData(t: Table, flags: Flags, mode: seq<Cell> -> Cell): (r: Result<Table, Error>)
    requires WellFormed(t) && IsModeOracle(mode)
    ensures |t.rows| == 0 <==> r == Failure(ValueError(Cleaner.EmptyMessage))
    ensures |t.rows| > 0 ==>
              var deduped := if flags.removeDuplicates then RemoveDuplicates(t) else t;
              && (flags.drop ==> r == Success(DropMissing(deduped)))
              && (!flags.drop && flags.mean ==> r == MeanMissing(deduped))
              && (!flags.drop && !flags.mean && flags.mode ==> r == ModeMissing(deduped, mode))
              && (!flags.drop && !flags.mean && !flags.mode ==> r == Success(deduped))
    ensures r.Success? ==> WellFormed(r.value) && r.value.fields == t.fields
    ensures |t.rows| > 0 && flags.drop ==> r.Success? && forall row :: row in r.value.rows ==> row in t.rows && NullFree(row)
  {
    if |t.rows| == 0 then Failure(ValueError(Cleaner.EmptyMessage))
    else
      var deduped := if flags.removeDuplicates then RemoveDuplicates(t) else t;
      if flags.drop then Success(DropMissing(deduped))
      else if flags.mean then MeanMissing(deduped)
      else if flags.mode then ModeMissing(deduped, mode)
      else Success(deduped)
  }

  /** Duplicate removal runs before the strategy and is never skipped: with
      `remove_duplicates` set, dropping rows or applying no strategy returns
      a table without duplicate rows. */
  lemma DedupRunsFirst(t: Table, flags: Flags, mode: seq<Cell> -> Cell)
    requires WellFormed(t) && IsModeOracle(mode) && |t.rows| > 0
    requires flags.removeDuplicates && (flags.drop || (!flags.mean && !flags.mode))
    ensures CleanData(t, flags, mode).Success?
    ensures NoDuplicates(CleanData(t, flags, mode).value.rows)
  {
    var d := RemoveDuplicates(t);
    if flags.drop {
      FilterNoDuplicates(NullFree, d.rows);
    }
  }

  /** Without duplicate removal, the old cleaner's drop and mean strategies
      agree with `Cleaner`'s, except that the old mean fill raises where a
      numeric column has no value at all. */
  lemma AgreesWithCleaner(t: Table, flags: Flags, mode: seq<Cell> -> Cell, cflags: Cleaner.Flags, env: Cleaner.Env)
    requires WellFormed(t) && IsModeOracle(mode) && Cleaner.KnnKeepsSchema(env.knn)
    requires !flags.removeDuplicates && flags.drop == cflags.drop && flags.mean == cflags.mean
    requires flags.drop || flags.mean
    requires CleanData(t, flags, mode).Success?
    ensures Cleaner.CleanData(t, cflags, env) == CleanData(t, flags, mode)
  {
  }
}
