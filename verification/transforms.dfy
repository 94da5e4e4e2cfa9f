/** The row and column transforms shared by `Cleaner` and the older
    `DataFlow` / `Preprocessor` classes: dropping rows with nulls, removing
    duplicate rows, and filling nulls in numeric columns with the column mean. */
module Transforms {
  import opened Wrappers
  import opened Seqs
  import opened Tables

  /** `df.drop_nulls()`: the rows without a null cell, in order. */
  function DropMissing(t: Table): (r: Table)
    requires WellFormed(t)
    ensures WellFormed(r) && r.fields == t.fields
    ensures forall row :: row in r.rows <==> row in t.rows && NullFree(row)
    ensures (forall row :: row in t.rows ==> !NullFree(row)) ==> |r.rows| == 0
  {
    var rows := Filter(NullFree, t.rows);
    WellFormedSubset(t, rows);
    assert (forall row :: row in t.rows ==> !NullFree(row)) ==> |rows| == 0 by {
      if |rows| > 0 {
        assert rows[0] in rows;
      }
    }
    Table(t.fields, rows)
  }

  /** Dropping distributes over splitting the rows: a null-free row is kept
      where it was, a row with a null vanishes. So row order is preserved. */
  lemma DropMissingAppend(fields: seq<Field>, a: seq<Row>, b: seq<Row>)
    requires WellFormed(Table(fields, a)) && WellFormed(Table(fields, b))
    ensures WellFormed(Table(fields, a + b))
    ensures DropMissing(Table(fields, a + b)).rows ==
            DropMissing(Table(fields, a)).rows + DropMissing(Table(fields, b)).rows
    ensures forall row :: row in a ==> DropMissing(Table(fields, [row])).rows == (if NullFree(row) then [row] else [])
  {
    FilterAppend(NullFree, a, b);
    forall row | row in a ensures Filter(NullFree, [row]) == (if NullFree(row) then [row] else []) {
      assert [row][1..] == [];
    }
  }

  /** Dropping nulls twice is dropping them once. */
  lemma DropMissingIdempotent(t: Table)
    requires WellFormed(t)
    ensures DropMissing(DropMissing(t)) == DropMissing(t)
  {
    FilterIdempotent(NullFree, t.rows);
  }

  /** `df.unique(keep="first")`. Polars does not promise the order of the
      retained rows; the model keeps them in order of first occurrence. The
      contract claims only what any order would satisfy; the two lemmas
      below rely on the model's order. */
  function RemoveDuplicates(t: Table): (r: Table)
    requires WellFormed(t)
    ensures WellFormed(r) && r.fields == t.fields
    ensures NoDuplicates(r.rows)
    ensures forall row :: row in r.rows <==> row in t.rows
    ensures |r.rows| == |set row | row in t.rows|
  {
    DedupCount(t.rows);
    WellFormedSubset(t, Dedup(t.rows));
    Table(t.fields, Dedup(t.rows))
  }

  /** Removing duplicates twice is removing them once, rows in the same
      order. */
  lemma RemoveDuplicatesIdempotent(t: Table)
    requires WellFormed(t)
    ensures RemoveDuplicates(RemoveDuplicates(t)) == RemoveDuplicates(t)
  {
    DedupIdempotent(t.rows);
  }

  /** A table without duplicate rows comes back unchanged, rows in the same
      order. */
  lemma RemoveDuplicatesOfDistinct(t: Table)
    requires WellFormed(t) && NoDuplicates(t.rows)
    ensures RemoveDuplicates(t) == t
  {
    DedupOfDistinct(t.rows);
  }

  /** The value a numeric column's nulls are filled with: the mean of its
      non-null values, when it has any. */
  function ColumnMean(c: seq<Cell>): Option<real> {
    if |Numbers(c)| > 0 then Some(Mean(Numbers(c))) else None
  }

  function FillMeanCell(f: Field, c: seq<Cell>, x: Cell): Cell {
    if IsNumeric(f.dtype) && x.None? && ColumnMean(c).Some? then Some(Num(ColumnMean(c).value)) else x
  }

  function KeepField(f: Field, c: seq<Cell>): Field {
    f
  }

  /** Every Int64/Float64 column's nulls filled with the mean of its non-null
      values (`fill_null(strategy="mean")`). A numeric column with no
      non-null value is taken to keep its nulls, an assumption about polars;
      non-numeric columns are untouched. */
  function FillMean(t: Table): (r: Table)
    requires WellFormed(t)
    ensures WellFormed(r) && r.fields == t.fields && |r.rows| == |t.rows|
    ensures forall i, j :: 0 <= i < |t.rows| && 0 <= j < |t.fields| && t.rows[i][j].Some? ==>
              r.rows[i][j] == t.rows[i][j]
    ensures forall i, j :: 0 <= i < |t.rows| && 0 <= j < |t.fields| && !IsNumeric(t.fields[j].dtype) ==>
              r.rows[i][j] == t.rows[i][j]
    ensures forall i, j :: 0 <= i < |t.rows| && 0 <= j < |t.fields| && IsNumeric(t.fields[j].dtype) && t.rows[i][j].None? ==>
              r.rows[i][j] == (if |Numbers(Column(t, j))| > 0 then Some(Num(Mean(Numbers(Column(t, j))))) else None)
  {
    var r := MapColumns(t, KeepField, FillMeanCell);
    assert r.fields == t.fields;
    r
  }

  /** `c` with each null replaced by `v`. */
  function FillColumn(c: seq<Cell>, v: real): (d: seq<Cell>)
    ensures |d| == |c|
  {
    if |c| == 0 then [] else [if c[0].None? then Some(Num(v)) else c[0]] + FillColumn(c[1..], v)
  }

  lemma {:induction false} FillColumnAt(c: seq<Cell>, v: real, i: nat)
    requires i < |c|
    ensures FillColumn(c, v)[i] == if c[i].None? then Some(Num(v)) else c[i]
  {
    if i > 0 {
      FillColumnAt(c[1..], v, i - 1);
    }
  }

  function NullCount(c: seq<Cell>): nat {
    if |c| == 0 then 0 else (if c[0].None? then 1 else 0) + NullCount(c[1..])
  }

  /** `v` added to itself `k` times. */
  function Times(k: nat, v: real): real {
    if k == 0 then 0.0 else v + Times(k - 1, v)
  }

  lemma {:induction false} TimesIsProduct(k: nat, v: real)
    ensures Times(k, v) == k as real * v
  {
    if k > 0 {
      TimesIsProduct(k - 1, v);
      assert k as real * v == (k - 1) as real * v + v;
    }
  }

  /** Filling `k` nulls with `v` adds `k` values, each `v`. */
  lemma {:induction false} FillColumnNumbers(c: seq<Cell>, v: real)
    ensures |Numbers(FillColumn(c, v))| == |Numbers(c)| + NullCount(c)
    ensures Sum(Numbers(FillColumn(c, v))) == Sum(Numbers(c)) + Times(NullCount(c), v)
  {
    if |c| > 0 {
      var d := FillColumn(c, v);
      var tail := c[1..];
      assert d[1..] == FillColumn(tail, v);
      FillColumnNumbers(tail, v);
      var nd := Numbers(FillColumn(tail, v));
      if c[0].None? {
        assert Numbers(d) == [v] + nd;
        assert ([v] + nd)[1..] == nd;
        assert Numbers(c) == Numbers(tail);
      } else if c[0].value.Num? {
        var x := c[0].value.x;
        assert Numbers(d) == [x] + nd;
        assert ([x] + nd)[1..] == nd;
        assert Numbers(c) == [x] + Numbers(tail);
        assert ([x] + Numbers(tail))[1..] == Numbers(tail);
      } else {
        assert Numbers(d) == nd;
        assert Numbers(c) == Numbers(tail);
      }
    }
  }

  /** Filling with the mean keeps the mean: `(S + k * S/n) / (n + k) == S/n`. */
  lemma MeanOfFilled(s: real, n: nat, k: nat)
    requires n > 0
    ensures (s + Times(k, s / n as real)) / (n + k) as real == s / n as real
  {
    var m := s / n as real;
    TimesIsProduct(k, m);
    assert m * n as real == s;
    assert s + k as real * m == m * (n + k) as real;
  }

  /** After the fill, a numeric column that had a value has no nulls and the
      same mean as before. */
  lemma FillMeanKeepsMean(t: Table, j: nat)
    requires WellFormed(t) && j < |t.fields| && IsNumeric(t.fields[j].dtype)
    requires |Numbers(Column(t, j))| > 0
    ensures None !in Column(FillMean(t), j)
    ensures |Numbers(Column(FillMean(t), j))| > 0
    ensures Mean(Numbers(Column(FillMean(t), j))) == Mean(Numbers(Column(t, j)))
  {
    var c := Column(t, j);
    var m := Mean(Numbers(c));
    var r := FillMean(t);
    forall i | 0 <= i < |c| ensures Column(r, j)[i] == FillColumn(c, m)[i] {
      FillColumnAt(c, m, i);
    }
    assert Column(r, j) == FillColumn(c, m);
    FillColumnNumbers(c, m);
    MeanOfFilled(Sum(Numbers(c)), |Numbers(c)|, NullCount(c));
  }

  /** Filling twice is filling once. */
  lemma FillMeanIdempotent(t: Table)
    requires WellFormed(t)
    ensures FillMean(FillMean(t)) == FillMean(t)
  {
    var r := FillMean(t);
    var rr := FillMean(r);
    forall i, j | 0 <= i < |t.rows| && 0 <= j < |t.fields|
      ensures rr.rows[i][j] == r.rows[i][j]
    {
      if IsNumeric(t.fields[j].dtype) && r.rows[i][j].None? {
        assert t.rows[i][j].None?;
        assert |Numbers(Column(t, j))| == 0;
        assert Column(r, j) == Column(t, j);
      }
    }
    forall i | 0 <= i < |t.rows| ensures rr.rows[i] == r.rows[i] {
      assert |rr.rows[i]| == |r.rows[i]|;
    }
    assert rr.rows == r.rows;
  }
}
