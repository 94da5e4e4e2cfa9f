/** The in-memory table every transform consumes and produces: an ordered list
    of named, typed columns of nullable cells, stored row by row. A transform
    never mutates its input; it returns a new `Table` value. */
module Tables {
  import opened Wrappers
  import opened Seqs

  /** A non-null cell value. Integer and floating-point cells are both held
      as `real`: the model does not follow IEEE rounding or integer casts. */
  datatype Value = Num(x: real) | Str(s: string) | Bool(b: bool)

  /** A nullable cell: `None` is a null. */
  type Cell = Option<Value>

  type Row = seq<Cell>

  /** The column dtypes the transforms distinguish. `UInt8` is the dtype of
      one-hot indicator columns. */
  datatype DType = Int64 | Float64 | Utf8 | Boolean | UInt8

  datatype Field = Field(name: string, dtype: DType)

  datatype Table = Table(fields: seq<Field>, rows: seq<Row>)

  /** The dtypes the cleaner and normalizer treat as numbers. */
  predicate IsNumeric(d: DType) {
    d == Int64 || d == Float64
  }

  /** A cell may be stored in a column of dtype `d`. */
  predicate Fits(d: DType, c: Cell) {
    match c
    case None => true
    case Some(v) =>
      match d
      case Int64 => v.Num?
      case Float64 => v.Num?
      case UInt8 => v.Num?
      case Utf8 => v.Str?
      case Boolean => v.Bool?
  }

  /** Every row has one cell per column, and each cell fits its column. */
  predicate WellFormed(t: Table) {
    forall i :: 0 <= i < |t.rows| ==> RowFits(t.fields, t.rows[i])
  }

  /** `row` has one cell per field, each fitting its field's dtype. */
  predicate RowFits(fields: seq<Field>, row: Row) {
    && |row| == |fields|
    && forall j :: 0 <= j < |fields| ==> Fits(fields[j].dtype, row[j])
  }

  /** Any selection of a well-formed table's rows is well formed. */
  lemma WellFormedSubset(t: Table, rows: seq<Row>)
    requires WellFormed(t)
    requires forall row :: row in rows ==> row in t.rows
    ensures WellFormed(Table(t.fields, rows))
  {
    forall i | 0 <= i < |rows| ensures RowFits(t.fields, rows[i]) {
      assert rows[i] in t.rows;
      var k :| 0 <= k < |t.rows| && t.rows[k] == rows[i];
    }
  }

  /** The column names, in column order. */
  function Names(fields: seq<Field>): (r: seq<string>)
    ensures |r| == |fields|
    ensures forall j :: 0 <= j < |fields| ==> r[j] == fields[j].name
  {
    seq(|fields|, j requires 0 <= j < |fields| => fields[j].name)
  }

  /** The cells of column `j`, top to bottom. */
  function Column(t: Table, j: nat): (c: seq<Cell>)
    requires WellFormed(t) && j < |t.fields|
    ensures |c| == |t.rows|
    ensures forall i :: 0 <= i < |t.rows| ==> c[i] == t.rows[i][j]
  {
    seq(|t.rows|, i requires 0 <= i < |t.rows| => t.rows[i][j])
  }

  /** The non-null numeric values among `c`, in order. */
  function Numbers(c: seq<Cell>): (xs: seq<real>)
    ensures |xs| <= |c|
  {
    if |c| == 0 then []
    else
      (if c[0].Some? && c[0].value.Num? then [c[0].value.x] else []) + Numbers(c[1..])
  }

  function Sum(xs: seq<real>): real {
    if |xs| == 0 then 0.0 else xs[0] + Sum(xs[1..])
  }

  /** The arithmetic mean, as polars computes it over non-null values. */
  function Mean(xs: seq<real>): real
    requires |xs| > 0
  {
    Sum(xs) / |xs| as real
  }

  function Min(xs: seq<real>): (m: real)
    requires |xs| > 0
    ensures m in xs
    ensures forall x :: x in xs ==> m <= x
  {
    if |xs| == 1 then xs[0]
    else
      var rest := Min(xs[1..]);
      assert forall x :: x in xs ==> x == xs[0] || x in xs[1..];
      if xs[0] <= rest then xs[0] else rest
  }

  function Max(xs: seq<real>): (m: real)
    requires |xs| > 0
    ensures m in xs
    ensures forall x :: x in xs ==> x <= m
  {
    if |xs| == 1 then xs[0]
    else
      var rest := Max(xs[1..]);
      assert forall x :: x in xs ==> x == xs[0] || x in xs[1..];
      if xs[0] >= rest then xs[0] else rest
  }

  /** A row with no null cell. */
  predicate NullFree(r: Row) {
    None !in r
  }

  /** Rebuilds a table column by column: column `j` gets field
      `retype(field, column)` and every cell `x` of it becomes
      `recell(field, column, x)`. Row count and column count are kept. */
  function MapColumns(
    t: Table,
    retype: (Field, seq<Cell>) -> Field,
    recell: (Field, seq<Cell>, Cell) -> Cell
  ): (r: Table)
    requires WellFormed(t)
    ensures |r.fields| == |t.fields| && |r.rows| == |t.rows|
    ensures forall j :: 0 <= j < |t.fields| ==> r.fields[j] == retype(t.fields[j], Column(t, j))
    ensures forall i :: 0 <= i < |t.rows| ==> |r.rows[i]| == |t.fields|
    ensures forall i, j :: 0 <= i < |t.rows| && 0 <= j < |t.fields| ==>
              r.rows[i][j] == recell(t.fields[j], Column(t, j), t.rows[i][j])
  {
    var fields := seq(|t.fields|, j requires 0 <= j < |t.fields| => retype(t.fields[j], Column(t, j)));
    var rows := seq(|t.rows|, i requires 0 <= i < |t.rows| =>
      seq(|t.fields|, j requires 0 <= j < |t.fields| => recell(t.fields[j], Column(t, j), t.rows[i][j])));
    Table(fields, rows)
  }
}
