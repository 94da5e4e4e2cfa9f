/** `Cleaner` from `proxiflow/core/cleaner.py`: the configuration-gated
    cleaning sequence and its IQR outlier step. The library pieces it calls
    (sklearn's KNN imputer, polars' quantile and median, `os.path.abspath`)
    are supplied through `Env`. */
module Cleaner {
  import opened Wrappers
  import opened Seqs
  import opened Tables
  import opened Errors
  import opened Transforms

  /** The boolean switches `clean_data` reads from the `data_cleaning` section. */
  datatype Flags = Flags(
    drop: bool,
    mean: bool,
    knn: bool,
    handleOutliers: bool,
    removeDuplicates: bool)

  /** First quartile, third quartile and median of a column's non-null
      values, as polars computes them. */
  datatype Quartiles = Quartiles(q1: real, q3: real, median: real)

  /** The collaborators `clean_data` depends on:
      - `knn`: `_knn_impute_missing` (sklearn), returning the imputed table or
        the exception it raised with the frames below `clean_data`;
      - `quartiles`: polars' `quantile(0.25)`, `quantile(0.75)`, `median()`
        over a non-empty list of non-null values;
      - `absPath`: `os.path.abspath`;
      - `sourceFile`: the file `cleaner.py` is loaded from. */
  datatype Env = Env(
    knn: Table -> Result<Table, Raised>,
    quartiles: seq<real> -> Quartiles,
    absPath: string -> string,
    sourceFile: string)

  /** KNN imputation is an opaque step that keeps the schema. */
  ghost predicate KnnKeepsSchema(knn: Table -> Result<Table, Raised>) {
    forall t :: WellFormed(t) && knn(t).Success? ==> WellFormed(knn(t).value) && knn(t).value.fields == t.fields
  }

  const EmptyMessage := "Empty DataFrame, no missing values to fill."

  /** Lines of `cleaner.py` where `clean_data` calls each step, and where
      `_handle_outliers` computes the interquartile range. */
  const KnnCallLine := 61
  const OutliersCallLine := 75
  const RangeLine := 196

  /** `q3 - q1` on two missing quantiles. */
  const NoneMinusNone := "unsupported operand type(s) for -: 'NoneType' and 'NoneType'"

  /** The fences outside which a value counts as an outlier. */
  function Lower(q: Quartiles): real {
    q.q1 - 1.5 * (q.q3 - q.q1)
  }

  function Upper(q: Quartiles): real {
    q.q3 + 1.5 * (q.q3 - q.q1)
  }

  /** A Float64 column whose quantiles polars reports as null. */
  predicate AllNullFloat(t: Table, j: nat)
    requires WellFormed(t) && j < |t.fields|
  {
    t.fields[j].dtype == Float64 && |Numbers(Column(t, j))| == 0
  }

  function OutlierCell(quartiles: seq<real> -> Quartiles, f: Field, c: seq<Cell>, x: Cell): Cell {
    if f.dtype == Float64 && x.Some? && x.value.Num? && |Numbers(c)| > 0 then
      var q := quartiles(Numbers(c));
      if x.value.x < Lower(q) || x.value.x > Upper(q) then Some(Num(q.median)) else x
    else x
  }

  /** `_handle_outliers`: in every Float64 column, a value below
      `Q1 - 1.5 IQR` or above `Q3 + 1.5 IQR` becomes the median of the
      original column; everything else is kept. A Float64 column with no
      non-null value makes `q3 - q1` raise a `TypeError`. */
  function HandleOutliers(t: Table, env: Env): (r: Result<Table, Raised>)
    requires WellFormed(t)
    ensures r.Failure? <==> exists j :: 0 <= j < |t.fields| && AllNullFloat(t, j)
    ensures r.Failure? ==> r.error == Raised(TypeError(NoneMinusNone), [Frame(env.sourceFile, RangeLine)])
    ensures r.Success? ==> WellFormed(r.value) && r.value.fields == t.fields && |r.value.rows| == |t.rows|
    ensures r.Success? ==> forall i, j :: 0 <= i < |t.rows| && 0 <= j < |t.fields| && t.fields[j].dtype != Float64 ==>
              r.value.rows[i][j] == t.rows[i][j]
    ensures r.Success? ==> forall i, j :: 0 <= i < |t.rows| && 0 <= j < |t.fields| && t.rows[i][j].None? ==>
              r.value.rows[i][j] == None
    ensures r.Success? ==> forall i, j :: 0 <= i < |t.rows| && 0 <= j < |t.fields| && t.fields[j].dtype == Float64 && t.rows[i][j].Some? ==>
              var q := env.quartiles(Numbers(Column(t, j)));
              var x := t.rows[i][j].value.x;
              r.value.rows[i][j] == if x < Lower(q) || x > Upper(q) then Some(Num(q.median)) else t.rows[i][j]
  {
    if exists j :: 0 <= j < |t.fields| && AllNullFloat(t, j) then
      Failure(Raised(TypeError(NoneMinusNone), [Frame(env.sourceFile, RangeLine)]))
    else
      ReplaceOutliersMeaning(t, env);
      Success(ReplaceOutliers(t, env))
  }

  /** The replacement loop of `_handle_outliers`: every cell goes through
      `OutlierCell` with its own column. */
  function ReplaceOutliers(t: Table, env: Env): (r: Table)
    requires WellFormed(t)
    ensures r.fields == t.fields && |r.rows| == |t.rows|
    ensures forall i :: 0 <= i < |t.rows| ==> |r.rows[i]| == |t.fields|
    ensures forall i, j :: 0 <= i < |t.rows| && 0 <= j < |t.fields| ==>
              r.rows[i][j] == OutlierCell(env.quartiles, t.fields[j], Column(t, j), t.rows[i][j])
  {
    MapColumns(t, KeepField, (f, c, x) => OutlierCell(env.quartiles, f, c, x))
  }

  /** What the replacement does to one cell of a column that has values. */
  lemma OutlierCellAt(t: Table, env: Env, i: nat, j: nat)
    requires WellFormed(t) && i < |t.rows| && j < |t.fields| && !AllNullFloat(t, j)
    ensures var y := ReplaceOutliers(t, env).rows[i][j];
            Fits(t.fields[j].dtype, y) &&
            (t.fields[j].dtype != Float64 ==> y == t.rows[i][j]) &&
            (t.rows[i][j].None? ==> y == None) &&
            (t.fields[j].dtype == Float64 && t.rows[i][j].Some? ==>
               var q := env.quartiles(Numbers(Column(t, j)));
               var x := t.rows[i][j].value.x;
               y == if x < Lower(q) || x > Upper(q) then Some(Num(q.median)) else t.rows[i][j])
  {
    assert RowFits(t.fields, t.rows[i]);
  }

  /** The replacement, read cell by cell, once no Float64 column is all
      null. */
  lemma ReplaceOutliersMeaning(t: Table, env: Env)
    requires WellFormed(t)
    requires forall j :: 0 <= j < |t.fields| ==> !AllNullFloat(t, j)
    ensures var r := ReplaceOutliers(t, env);
            WellFormed(r) &&
            (forall i, j :: 0 <= i < |t.rows| && 0 <= j < |t.fields| && t.fields[j].dtype != Float64 ==>
               r.rows[i][j] == t.rows[i][j]) &&
            (forall i, j :: 0 <= i < |t.rows| && 0 <= j < |t.fields| && t.rows[i][j].None? ==>
               r.rows[i][j] == None) &&
            (forall i, j :: 0 <= i < |t.rows| && 0 <= j < |t.fields| && t.fields[j].dtype == Float64 && t.rows[i][j].Some? ==>
               var q := env.quartiles(Numbers(Column(t, j)));
               var x := t.rows[i][j].value.x;
               r.rows[i][j] == if x < Lower(q) || x > Upper(q) then Some(Num(q.median)) else t.rows[i][j])
  {
    var r := ReplaceOutliers(t, env);
    forall i, j | 0 <= i < |t.rows| && 0 <= j < |t.fields| {
      OutlierCellAt(t, env, i, j);
    }
    forall i | 0 <= i < |r.rows| ensures RowFits(r.fields, r.rows[i]) {
      forall j | 0 <= j < |r.fields| ensures Fits(r.fields[j].dtype, r.rows[i][j]) {
        OutlierCellAt(t, env, i, j);
      }
    }
  }

  /** With sane statistics (`q1 <= median <= q3`), every non-null value the
      outlier step leaves in a Float64 column lies between the fences of the
      original column. */
  lemma OutliersWithinFences(t: Table, env: Env, i: nat, j: nat)
    requires WellFormed(t) && HandleOutliers(t, env).Success?
    requires i < |t.rows| && j < |t.fields| && t.fields[j].dtype == Float64
    requires t.rows[i][j].Some?
    requires var q := env.quartiles(Numbers(Column(t, j))); q.q1 <= q.median <= q.q3
    ensures var q := env.quartiles(Numbers(Column(t, j)));
            var y := HandleOutliers(t, env).value.rows[i][j];
            y.Some? && y.value.Num? && Lower(q) <= y.value.x <= Upper(q)
  {
    assert RowFits(t.fields, t.rows[i]);
  }

  /** The prefixes that name the failing step in a rewrapped exception. */
  const KnnPrefix := "Trying to fill missing values with KNN Imputer: "
  const OutliersPrefix := "Trying to fill outliers with the median: "

  /** The `except` block around a step that `clean_data` calls at `line`:
      the caught exception's traceback starts at that call, and
      `generate_trace` looks for the last frame in `cleaner.py`. */
  function Rewrap(prefix: string, line: nat, e: Raised, env: Env): Error {
    Exception(prefix + GenerateTrace([Frame(env.sourceFile, line)] + e.frames, env.sourceFile, env.absPath, e.error.msg))
  }

  function KnnStep(t: Table, env: Env): Result<Table, Error> {
    match env.knn(t)
    case Success(t') => Success(t')
    case Failure(e) => Failure(Rewrap(KnnPrefix, KnnCallLine, e, env))
  }

  function OutlierStep(t: Table, env: Env): Result<Table, Error>
    requires WellFormed(t)
  {
    match HandleOutliers(t, env)
    case Success(t') => Success(t')
    case Failure(e) => Failure(Rewrap(OutliersPrefix, OutliersCallLine, e, env))
  }

  /** `Cleaner.clean_data`. A table without rows is rejected with an
      unwrapped `ValueError`. Then the first set flag among `drop` and `mean`
      picks the only step that runs; otherwise KNN imputation, outlier
      handling and duplicate removal run in that order, each when its flag is
      set. A failing step is re-raised as `Exception("Trying to ...: " + trace)`.
      (`drop_nulls`, the mean fill and `unique` are taken not to fail here,
      so their handlers are not modelled.) */
  function CleanData(t: Table, flags: Flags, env: Env): (r: Result<Table, Error>)
    requires WellFormed(t)
    requires KnnKeepsSchema(env.knn)
    ensures r == Failure(ValueError(EmptyMessage)) <==> |t.rows| == 0
    ensures |t.rows| > 0 && flags.drop ==> r == Success(DropMissing(t))
    ensures |t.rows| > 0 && !flags.drop && flags.mean ==> r == Success(FillMean(t))
    ensures |t.rows| > 0 && !flags.drop && !flags.mean && flags.knn && env.knn(t).Failure? ==>
              r == Failure(Rewrap(KnnPrefix, KnnCallLine, env.knn(t).error, env))
    ensures |t.rows| > 0 && !flags.drop && !flags.mean && (!flags.knn || env.knn(t).Success?) ==>
              var t1 := if flags.knn then env.knn(t).value else t;
              WellFormed(t1) &&
              (!flags.handleOutliers ==> r == Success(if flags.removeDuplicates then RemoveDuplicates(t1) else t1))
    ensures |t.rows| > 0 && !flags.drop && !flags.mean && (!flags.knn || env.knn(t).Success?) && flags.handleOutliers ==>
              var t1 := if flags.knn then env.knn(t).value else t;
              var t2 := HandleOutliers(t1, env);
              && (t2.Failure? ==> r == Failure(Rewrap(OutliersPrefix, OutliersCallLine, t2.error, env)))
              && (t2.Success? ==> r == Success(if flags.removeDuplicates then RemoveDuplicates(t2.value) else t2.value))
    ensures |t.rows| > 0 && r.Failure? ==>
              r.error.Exception? && (KnnPrefix <= r.error.msg || OutliersPrefix <= r.error.msg)
    ensures r.Success? ==> WellFormed(r.value) && r.value.fields == t.fields
    ensures r.Success? && !flags.drop && !flags.mean && flags.removeDuplicates ==> NoDuplicates(r.value.rows)
  {
    if |t.rows| == 0 then Failure(ValueError(EmptyMessage))
    else if flags.drop then Success(DropMissing(t))
    else if flags.mean then Success(FillMean(t))
    else
      var imputed := if flags.knn then KnnStep(t, env) else Success(t);
      match imputed
      case Failure(e) => Failure(e)
      case Success(t1) =>
        var fenced := if flags.handleOutliers then OutlierStep(t1, env) else Success(t1);
        match fenced
        case Failure(e) => Failure(e)
        case Success(t2) => Success(if flags.removeDuplicates then RemoveDuplicates(t2) else t2)
  }

  /** When `cleaner.py` is loaded from an absolute path, an all-null Float64
      column makes the outlier step fail with a message that names the step,
      the file, the line computing the interquartile range, and the
      `TypeError`. */
  lemma OutlierFailureMessage(t: Table, flags: Flags, env: Env)
    requires WellFormed(t) && KnnKeepsSchema(env.knn)
    requires |t.rows| > 0 && !flags.drop && !flags.mean && !flags.knn && flags.handleOutliers
    requires exists j :: 0 <= j < |t.fields| && AllNullFloat(t, j)
    requires env.absPath(env.sourceFile) == env.sourceFile
    ensures CleanData(t, flags, env) ==
            Failure(Exception(OutliersPrefix + LocatedMessage(env.sourceFile, RangeLine, NoneMinusNone)))
  {
    var e := Raised(TypeError(NoneMinusNone), [Frame(env.sourceFile, RangeLine)]);
    assert HandleOutliers(t, env).error == e;
    var frames := [Frame(env.sourceFile, OutliersCallLine)] + e.frames;
    assert frames[1] == Frame(env.sourceFile, RangeLine);
    assert IsLastMatch(frames, env.sourceFile, env.absPath, 1);
    var trace := GenerateTrace(frames, env.sourceFile, env.absPath, NoneMinusNone);
    assert trace == LocatedMessage(env.sourceFile, RangeLine, NoneMinusNone);
    assert CleanData(t, flags, env) == Failure(Rewrap(OutliersPrefix, OutliersCallLine, e, env));
  }
}
