/** `Normalizer` from `proxiflow/core/normalizer.py`: min-max rescaling of the
    configured numeric columns. */
module Normalizer {
  import opened Wrappers
  import opened Seqs
  import opened Tables
  import opened Errors

  /** Column `j` is a numeric column named in `selected`. */
  predicate Rescaled(t: Table, selected: seq<string>, j: nat)
    requires j < |t.fields|
  {
    t.fields[j].name in selected && IsNumeric(t.fields[j].dtype)
  }

  /** Every numeric column named in `selected` has a value and is not
      constant. The source has no guard for `max == min`: polars would
      divide by zero. */
  predicate NonDegenerate(t: Table, selected: seq<string>)
    requires WellFormed(t)
  {
    forall j :: 0 <= j < |t.fields| && Rescaled(t, selected, j) ==>
      var xs := Numbers(Column(t, j));
      |xs| > 0 && Min(xs) < Max(xs)
  }

  /** The min-max image of `x` for a column spanning `[lo, hi]`. */
  function Scale(x: real, lo: real, hi: real): real
    requires lo < hi
  {
    (x - lo) / (hi - lo)
  }

  function MinMaxField(selected: seq<string>, f: Field, c: seq<Cell>): Field {
    if f.name in selected && IsNumeric(f.dtype) then Field(f.name, Float64) else f
  }

  function MinMaxCell(selected: seq<string>, f: Field, c: seq<Cell>, x: Cell): Cell {
    var xs := Numbers(c);
    if f.name in selected && IsNumeric(f.dtype) && x.Some? && x.value.Num? && |xs| > 0 && Min(xs) < Max(xs) then
      Some(Num(Scale(x.value.x, Min(xs), Max(xs))))
    else x
  }

  /** The loop body after the selection: every selected Int64/Float64 column
      is replaced by `(x - min) / (max - min)`, which polars stores as
      Float64; nulls stay null. */
  function RescaleColumns(t: Table, selected: seq<string>): (r: Table)
    requires WellFormed(t) && NonDegenerate(t, selected)
    ensures WellFormed(r) && |r.fields| == |t.fields| && |r.rows| == |t.rows|
    ensures Names(r.fields) == Names(t.fields)
    ensures forall j :: 0 <= j < |t.fields| ==>
              r.fields[j] == if Rescaled(t, selected, j) then Field(t.fields[j].name, Float64) else t.fields[j]
    ensures forall i, j :: 0 <= i < |t.rows| && 0 <= j < |t.fields| && (!Rescaled(t, selected, j) || t.rows[i][j].None?) ==>
              r.rows[i][j] == t.rows[i][j]
    ensures forall i, j :: 0 <= i < |t.rows| && 0 <= j < |t.fields| && Rescaled(t, selected, j) && t.rows[i][j].Some? ==>
              var xs := Numbers(Column(t, j));
              t.rows[i][j].value.Num? && |xs| > 0 && Min(xs) < Max(xs) &&
              r.rows[i][j] == Some(Num(Scale(t.rows[i][j].value.x, Min(xs), Max(xs))))
  {
    var r := MapColumns(t, (f, c) => MinMaxField(selected, f, c), (f, c, x) => MinMaxCell(selected, f, c, x));
    assert WellFormed(r) by {
      forall i | 0 <= i < |r.rows| ensures RowFits(r.fields, r.rows[i]) {
        assert RowFits(t.fields, t.rows[i]);
      }
    }
    forall i, j | 0 <= i < |t.rows| && 0 <= j < |t.fields| && Rescaled(t, selected, j) && t.rows[i][j].Some?
      ensures t.rows[i][j].value.Num?
    {
      assert RowFits(t.fields, t.rows[i]);
    }
    r
  }

  /** The rescaled values lie in `[0, 1]`, the minimum maps to 0, the maximum
      to 1, and the order of values is kept. */
  lemma ScaleBounds(x: real, y: real, lo: real, hi: real)
    requires lo < hi && lo <= x <= hi && lo <= y <= hi
    ensures 0.0 <= Scale(x, lo, hi) <= 1.0
    ensures Scale(lo, lo, hi) == 0.0 && Scale(hi, lo, hi) == 1.0
    ensures x <= y <==> Scale(x, lo, hi) <= Scale(y, lo, hi)
  {
    ScaleInUnitInterval(x, lo, hi);
    ScaleEnds(lo, hi);
    ScaleMonotone(x, y, lo, hi);
  }

  /** Multiplying by a positive factor keeps the sign. */
  lemma MulKeepsSign(a: real, d: real)
    requires d > 0.0
    ensures 0.0 <= a <==> 0.0 <= a * d
  {
  }

  lemma ScaleInUnitInterval(x: real, lo: real, hi: real)
    requires lo < hi && lo <= x <= hi
    ensures 0.0 <= Scale(x, lo, hi) <= 1.0
  {
    var s := Scale(x, lo, hi);
    ScaleInverse(x, lo, hi);
    MulKeepsSign(s, hi - lo);
    MulKeepsSign(1.0 - s, hi - lo);
    assert (1.0 - s) * (hi - lo) == (hi - lo) - s * (hi - lo);
  }

  lemma ScaleEnds(lo: real, hi: real)
    requires lo < hi
    ensures Scale(lo, lo, hi) == 0.0 && Scale(hi, lo, hi) == 1.0
  {
    var s0, s1 := Scale(lo, lo, hi), Scale(hi, lo, hi);
    ScaleInverse(lo, lo, hi);
    ScaleInverse(hi, lo, hi);
    MulKeepsSign(s0, hi - lo);
    MulKeepsSign(-s0, hi - lo);
    assert (-s0) * (hi - lo) == -(s0 * (hi - lo));
    MulKeepsSign(s1 - 1.0, hi - lo);
    MulKeepsSign(1.0 - s1, hi - lo);
    assert (s1 - 1.0) * (hi - lo) == s1 * (hi - lo) - (hi - lo);
    assert (1.0 - s1) * (hi - lo) == (hi - lo) - s1 * (hi - lo);
  }

  lemma ScaleMonotone(x: real, y: real, lo: real, hi: real)
    requires lo < hi
    ensures x <= y <==> Scale(x, lo, hi) <= Scale(y, lo, hi)
  {
    var sx, sy := Scale(x, lo, hi), Scale(y, lo, hi);
    ScaleInverse(x, lo, hi);
    ScaleInverse(y, lo, hi);
    MulKeepsSign(sy - sx, hi - lo);
    assert (sy - sx) * (hi - lo) == sy * (hi - lo) - sx * (hi - lo);
  }

  /** Rescaling is undone by `lo + y * (hi - lo)`. */
  lemma ScaleInverse(x: real, lo: real, hi: real)
    requires lo < hi
    ensures lo + Scale(x, lo, hi) * (hi - lo) == x
  {
  }

  /** Every value of a rescaled column of the result lies in `[0, 1]`; the
      column's minimum becomes 0 and its maximum 1. */
  lemma RescaledInUnitInterval(t: Table, selected: seq<string>, i: nat, j: nat)
    requires WellFormed(t) && NonDegenerate(t, selected)
    requires i < |t.rows| && j < |t.fields| && Rescaled(t, selected, j) && t.rows[i][j].Some?
    ensures var y := RescaleColumns(t, selected).rows[i][j];
            var xs := Numbers(Column(t, j));
            && y.Some? && y.value.Num? && 0.0 <= y.value.x <= 1.0
            && (t.rows[i][j].value.x == Min(xs) ==> y.value.x == 0.0)
            && (t.rows[i][j].value.x == Max(xs) ==> y.value.x == 1.0)
  {
    var xs := Numbers(Column(t, j));
    assert RowFits(t.fields, t.rows[i]);
    var x := t.rows[i][j].value.x;
    NumbersContains(Column(t, j), i);
    ScaleBounds(x, x, Min(xs), Max(xs));
  }

  /** A numeric cell's value is among the column's numbers. */
  lemma {:induction false} NumbersContains(c: seq<Cell>, i: nat)
    requires i < |c| && c[i].Some? && c[i].value.Num?
    ensures c[i].value.x in Numbers(c)
  {
    if i > 0 {
      NumbersContains(c[1..], i - 1);
    }
  }

  /** The requested names that are table columns, in request order. */
  function Present(t: Table, columns: seq<string>): seq<string> {
    Filter((c: string) => c in Names(t.fields), columns)
  }

  /** `min_max_normalize` as its comment describes it: names missing from
      the table are dropped from the request, and the table comes back
      unchanged when none remain. */
  function MinMaxNormalize(t: Table, columns: seq<string>): (r: Table)
    requires WellFormed(t) && NonDegenerate(t, columns)
    ensures (forall k :: 0 <= k < |columns| ==> columns[k] !in Names(t.fields)) ==> r == t
    ensures WellFormed(r) && Names(r.fields) == Names(t.fields) && |r.rows| == |t.rows|
    ensures forall j :: 0 <= j < |t.fields| ==>
              r.fields[j] == if Rescaled(t, columns, j) then Field(t.fields[j].name, Float64) else t.fields[j]
    ensures forall i, j :: 0 <= i < |t.rows| && 0 <= j < |t.fields| && (!Rescaled(t, columns, j) || t.rows[i][j].None?) ==>
              r.rows[i][j] == t.rows[i][j]
    ensures forall i, j :: 0 <= i < |t.rows| && 0 <= j < |t.fields| && Rescaled(t, columns, j) && t.rows[i][j].Some? ==>
              var xs := Numbers(Column(t, j));
              t.rows[i][j].value.Num? && |xs| > 0 && Min(xs) < Max(xs) &&
              r.rows[i][j] == Some(Num(Scale(t.rows[i][j].value.x, Min(xs), Max(xs))))
  {
    var present := Present(t, columns);
    if |present| == 0 then
      assert forall k :: 0 <= k < |columns| ==> columns[k] !in Names(t.fields) by {
        forall k | 0 <= k < |columns| ensures columns[k] !in Names(t.fields) {
          assert columns[k] !in present;
        }
      }
      assert forall j :: 0 <= j < |t.fields| ==> !Rescaled(t, columns, j);
      t
    else
      assert present[0] in columns && present[0] in Names(t.fields);
      SameSelection(t, columns, present);
      assert forall j :: 0 <= j < |t.fields| ==> (Rescaled(t, columns, j) <==> Rescaled(t, present, j));
      RescaleColumns(t, present)
  }

  /** Rescaling depends only on which column names are selected. */
  lemma SameSelection(t: Table, a: seq<string>, b: seq<string>)
    requires WellFormed(t)
    requires forall j :: 0 <= j < |t.fields| ==> (t.fields[j].name in a <==> t.fields[j].name in b)
    ensures NonDegenerate(t, a) ==> NonDegenerate(t, b) && RescaleColumns(t, a) == RescaleColumns(t, b)
  {
    if NonDegenerate(t, a) {
      assert forall j :: 0 <= j < |t.fields| ==> (Rescaled(t, a, j) <==> Rescaled(t, b, j));
      var ra, rb := RescaleColumns(t, a), RescaleColumns(t, b);
      assert ra.fields == rb.fields;
      forall i | 0 <= i < |t.rows| ensures ra.rows[i] == rb.rows[i] {
        assert |ra.rows[i]| == |rb.rows[i]|;
      }
      assert ra.rows == rb.rows;
    }
  }

  /** `normalize`: min-max runs only when `config["min_max"]["columns"]` is a
      non-empty list; otherwise the table is returned as it came. */
  function Normalize(t: Table, minMaxColumns: seq<string>): (r: Table)
    requires WellFormed(t) && NonDegenerate(t, minMaxColumns)
    ensures |minMaxColumns| == 0 ==> r == t
    ensures |minMaxColumns| > 0 ==> r == MinMaxNormalize(t, minMaxColumns)
    ensures WellFormed(r) && Names(r.fields) == Names(t.fields) && |r.rows| == |t.rows|
  {
    if |minMaxColumns| > 0 then MinMaxNormalize(t, minMaxColumns) else t
  }

  /** The loop that is meant to drop absent names, as Python runs it: the
      list is shortened while a `for` loop walks it by index, so the name
      right after each removed one is never looked at. `i` is the loop's
      hidden position. */
  function PythonRemoveMissing(columns: seq<string>, names: seq<string>, i: nat): (r: seq<string>)
    decreases |columns| - i
    ensures |r| <= |columns|
    ensures forall x :: x in r ==> x in columns
    ensures forall x :: x in names ==> (x in r <==> x in columns)
  {
    if i >= |columns| then columns
    else if columns[i] !in names then PythonRemoveMissing(RemoveFirst(columns, columns[i]), names, i + 1)
    else PythonRemoveMissing(columns, names, i + 1)
  }

  /** The first entry of `s` that is not a column name, if any. */
  function FirstAbsent(s: seq<string>, names: seq<string>): (r: Option<string>)
    ensures r.None? <==> forall k :: 0 <= k < |s| ==> s[k] in names
    ensures r.Some? ==> r.value in s && r.value !in names
  {
    if |s| == 0 then None
    else if s[0] !in names then Some(s[0])
    else FirstAbsent(s[1..], names)
  }

  /** `min_max_normalize` as written: after the skipping loop, any absent
      name left in the list makes `select` raise `ColumnNotFoundError`. */
  function MinMaxAsWritten(t: Table, columns: seq<string>): (r: Result<Table, Error>)
    requires WellFormed(t) && NonDegenerate(t, columns)
    ensures r.Success? ==> WellFormed(r.value) && Names(r.value.fields) == Names(t.fields)
    ensures (forall k :: 0 <= k < |columns| ==> columns[k] in Names(t.fields)) ==> r.Success?
    ensures r.Failure? ==> r.error.ColumnNotFoundError? && r.error.msg in columns && r.error.msg !in Names(t.fields)
  {
    var remaining := PythonRemoveMissing(columns, Names(t.fields), 0);
    if |remaining| == 0 then Success(t)
    else match FirstAbsent(remaining, Names(t.fields))
      case Some(c) => Failure(ColumnNotFoundError(c))
      case None =>
        SameSelection(t, columns, remaining);
        Success(RescaleColumns(t, remaining))
  }

  /** Whenever the code as written does not raise, it computes what the
      corrected `MinMaxNormalize` computes. */
  lemma AsWrittenAgrees(t: Table, columns: seq<string>)
    requires WellFormed(t) && NonDegenerate(t, columns)
    ensures MinMaxAsWritten(t, columns).Success? ==> MinMaxAsWritten(t, columns).value == MinMaxNormalize(t, columns)
  {
    var names := Names(t.fields);
    var remaining := PythonRemoveMissing(columns, names, 0);
    var present := Present(t, columns);
    if MinMaxAsWritten(t, columns).Success? {
      if |remaining| == 0 {
        forall k | 0 <= k < |columns| ensures columns[k] !in names {
          assert columns[k] !in remaining;
        }
      } else {
        assert forall k :: 0 <= k < |remaining| ==> remaining[k] in names;
        assert remaining[0] in columns && remaining[0] in present;
        SameSelection(t, remaining, present);
      }
    }
  }

  /** `normalize` over the code as written: the same gate, with the
      min-max step that may raise. */
  function NormalizeAsWritten(t: Table, minMaxColumns: seq<string>): (r: Result<Table, Error>)
    requires WellFormed(t) && NonDegenerate(t, minMaxColumns)
    ensures |minMaxColumns| == 0 ==> r == Success(t)
    ensures (forall k :: 0 <= k < |minMaxColumns| ==> minMaxColumns[k] in Names(t.fields)) ==> r.Success?
    ensures r.Failure? ==> r.error.ColumnNotFoundError? && r.error.msg in minMaxColumns && r.error.msg !in Names(t.fields)
    ensures r.Success? ==> r.value == Normalize(t, minMaxColumns)
  {
    if |minMaxColumns| > 0 then
      AsWrittenAgrees(t, minMaxColumns);
      MinMaxAsWritten(t, minMaxColumns)
    else Success(t)
  }

  /** Two absent names in a row: the second survives the loop and `select`
      raises on it, where the table should have come back unchanged. */
  lemma AdjacentMissingNamesRaise()
    ensures var t := Table([Field("c", Int64)], [[Some(Num(1.0))], [Some(Num(2.0))]]);
            && WellFormed(t) && NonDegenerate(t, ["a", "b"])
            && MinMaxAsWritten(t, ["a", "b"]) == Failure(ColumnNotFoundError("b"))
            && MinMaxNormalize(t, ["a", "b"]) == t
  {
    var t := Table([Field("c", Int64)], [[Some(Num(1.0))], [Some(Num(2.0))]]);
    assert Names(t.fields) == ["c"];
    assert RemoveFirst(["a", "b"], "a") == ["b"];
    assert PythonRemoveMissing(["a", "b"], ["c"], 0) == ["b"];
  }
}
