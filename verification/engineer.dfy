/** `Engineer` from `proxiflow/core/engineer.py`: one-hot encoding of the
    configured categorical columns through polars' `to_dummies`. */
module Engineer {
  import opened Wrappers
  import opened Seqs
  import opened Tables

  /** How a value is spelled in an indicator column's name. Numbers are
      printed by the library's own formatter, which is a parameter here. */
  function Label(c: Cell, numLabel: real -> string): string {
    match c
    case None => "null"
    case Some(Str(s)) => s
    case Some(Bool(b)) => if b then "true" else "false"
    case Some(Num(x)) => numLabel(x)
  }

  /** Column `j` is listed for encoding. Listed names that are not columns of
      the table match nothing and are ignored. */
  predicate Encoded(t: Table, columns: seq<string>, j: nat)
    requires j < |t.fields|
  {
    t.fields[j].name in columns
  }

  /** The distinct cells of column `j`, nulls included, in order of first
      appearance: one indicator column each. */
  function Categories(t: Table, j: nat): (cats: seq<Cell>)
    requires WellFormed(t) && j < |t.fields|
    ensures NoDuplicates(cats)
  {
    Dedup(Column(t, j))
  }

  /** Every cell of column `j` is one of its categories, and every category
      is a cell of column `j`. */
  lemma CategoriesCover(t: Table, j: nat, i: nat)
    requires WellFormed(t) && j < |t.fields| && i < |t.rows|
    ensures t.rows[i][j] in Categories(t, j)
    ensures forall k :: 0 <= k < |Categories(t, j)| ==> Categories(t, j)[k] in Column(t, j)
  {
    assert Column(t, j)[i] == t.rows[i][j];
  }

  /** 1 where the cell equals the category, 0 elsewhere. */
  function Indicator(c: Cell, category: Cell): Cell {
    Some(Num(if c == category then 1.0 else 0.0))
  }

  /** The columns that take column `j`'s place in the result. */
  function FieldBlock(t: Table, columns: seq<string>, numLabel: real -> string, j: nat): (b: seq<Field>)
    requires WellFormed(t) && j < |t.fields|
  {
    if Encoded(t, columns, j) then
      var cats := Categories(t, j);
      seq(|cats|, k requires 0 <= k < |cats| => Field(t.fields[j].name + "_" + Label(cats[k], numLabel), UInt8))
    else [t.fields[j]]
  }

  /** The cells that take cell `(i, j)`'s place in the result. */
  function CellBlock(t: Table, columns: seq<string>, i: nat, j: nat): (b: seq<Cell>)
    requires WellFormed(t) && i < |t.rows| && j < |t.fields|
  {
    if Encoded(t, columns, j) then
      var cats := Categories(t, j);
      seq(|cats|, k requires 0 <= k < |cats| => Indicator(t.rows[i][j], cats[k]))
    else [t.rows[i][j]]
  }

  function FieldBlocks(t: Table, columns: seq<string>, numLabel: real -> string): (bs: seq<seq<Field>>)
    requires WellFormed(t)
    ensures |bs| == |t.fields|
    ensures forall j :: 0 <= j < |t.fields| ==> bs[j] == FieldBlock(t, columns, numLabel, j)
  {
    seq(|t.fields|, j requires 0 <= j < |t.fields| => FieldBlock(t, columns, numLabel, j))
  }

  function CellBlocks(t: Table, columns: seq<string>, i: nat): (bs: seq<seq<Cell>>)
    requires WellFormed(t) && i < |t.rows|
    ensures |bs| == |t.fields|
    ensures forall j :: 0 <= j < |t.fields| ==> bs[j] == CellBlock(t, columns, i, j)
  {
    seq(|t.fields|, j requires 0 <= j < |t.fields| => CellBlock(t, columns, i, j))
  }

  /** Where column `j`'s block starts in the result. */
  function Offset(t: Table, columns: seq<string>, numLabel: real -> string, j: nat): nat
    requires WellFormed(t) && j <= |t.fields|
  {
    |Concat(FieldBlocks(t, columns, numLabel)[..j])|
  }

  /** The blocks of every column laid end to end, in the header and in each
      row. */
  function Layout(t: Table, columns: seq<string>, numLabel: real -> string): (r: Table)
    requires WellFormed(t)
    ensures r.fields == Concat(FieldBlocks(t, columns, numLabel))
    ensures |r.rows| == |t.rows| && forall i :: 0 <= i < |t.rows| ==> r.rows[i] == Concat(CellBlocks(t, columns, i))
  {
    Table(Concat(FieldBlocks(t, columns, numLabel)),
          seq(|t.rows|, i requires 0 <= i < |t.rows| => Concat(CellBlocks(t, columns, i))))
  }

  /** `one_hot_encode`: every listed column is replaced, where it stood, by
      its block of indicator columns, and every other column is kept as it
      is. The result is well formed with the same rows; column `j`'s block
      is the slice of the header that starts at `Offset(j)`, and cell
      `(i, j)`'s block the slice of row `i` at the same place. */
  function OneHotEncode(t: Table, columns: seq<string>, numLabel: real -> string): (r: Table)
    requires WellFormed(t)
    ensures WellFormed(r) && |r.rows| == |t.rows|
    ensures |r.fields| == Offset(t, columns, numLabel, |t.fields|)
    ensures forall j :: 0 <= j < |t.fields| ==>
              HeaderHolds(r.fields, t, columns, numLabel, j)
    ensures forall i, j :: 0 <= i < |t.rows| && 0 <= j < |t.fields| ==>
              RowHolds(r.rows[i], t, columns, numLabel, i, j)
  {
    LayoutWellFormed(t, columns, numLabel);
    HeaderPlacement(t, columns, numLabel);
    RowPlacement(t, columns, numLabel);
    Layout(t, columns, numLabel)
  }

  /** Column `j`'s header block sits in `fields` at `Offset(j)`. */
  predicate HeaderHolds(fields: seq<Field>, t: Table, columns: seq<string>, numLabel: real -> string, j: nat)
    requires WellFormed(t) && j < |t.fields|
  {
    var o := Offset(t, columns, numLabel, j);
    var b := FieldBlock(t, columns, numLabel, j);
    o + |b| <= |fields| && fields[o..o + |b|] == b
  }

  /** Cell `(i, j)`'s block sits in `row` at `Offset(j)`. */
  predicate RowHolds(row: seq<Cell>, t: Table, columns: seq<string>, numLabel: real -> string, i: nat, j: nat)
    requires WellFormed(t) && i < |t.rows| && j < |t.fields|
  {
    var o := Offset(t, columns, numLabel, j);
    var b := CellBlock(t, columns, i, j);
    o + |b| <= |row| && row[o..o + |b|] == b
  }

  /** The laid-out table is well formed: every row has one cell per column,
      and every cell fits its column's dtype. */
  lemma LayoutWellFormed(t: Table, columns: seq<string>, numLabel: real -> string)
    requires WellFormed(t)
    ensures WellFormed(Layout(t, columns, numLabel))
  {
    var r := Layout(t, columns, numLabel);
    var fbs := FieldBlocks(t, columns, numLabel);
    forall i | 0 <= i < |t.rows| ensures RowFits(r.fields, r.rows[i]) {
      var cbs := CellBlocks(t, columns, i);
      assert RowFits(t.fields, t.rows[i]);
      ConcatPairwise(fbs, cbs, (f: Field, c: Cell) => Fits(f.dtype, c));
    }
  }

  lemma HeaderPlacement(t: Table, columns: seq<string>, numLabel: real -> string)
    requires WellFormed(t)
    ensures |Layout(t, columns, numLabel).fields| == Offset(t, columns, numLabel, |t.fields|)
    ensures forall j :: 0 <= j < |t.fields| ==> HeaderHolds(Layout(t, columns, numLabel).fields, t, columns, numLabel, j)
  {
    var fbs := FieldBlocks(t, columns, numLabel);
    assert fbs[..|t.fields|] == fbs;
    forall j | 0 <= j < |t.fields| ensures HeaderHolds(Layout(t, columns, numLabel).fields, t, columns, numLabel, j) {
      FieldPosition(t, columns, numLabel, j);
    }
  }

  lemma RowPlacement(t: Table, columns: seq<string>, numLabel: real -> string)
    requires WellFormed(t)
    ensures forall i, j :: 0 <= i < |t.rows| && 0 <= j < |t.fields| ==>
              RowHolds(Layout(t, columns, numLabel).rows[i], t, columns, numLabel, i, j)
  {
    forall i, j | 0 <= i < |t.rows| && 0 <= j < |t.fields|
      ensures RowHolds(Layout(t, columns, numLabel).rows[i], t, columns, numLabel, i, j)
    {
      CellPosition(t, columns, numLabel, i, j);
    }
  }

  /** With no listed name among the table's columns, encoding changes
      nothing. */
  lemma NothingListedIsIdentity(t: Table, columns: seq<string>, numLabel: real -> string)
    requires WellFormed(t)
    requires forall j :: 0 <= j < |t.fields| ==> t.fields[j].name !in columns
    ensures OneHotEncode(t, columns, numLabel) == t
  {
    var r := Layout(t, columns, numLabel);
    assert OneHotEncode(t, columns, numLabel) == r;
    UnencodedIsIdentity(FieldBlocks(t, columns, numLabel), t.fields);
    forall i | 0 <= i < |t.rows| ensures r.rows[i] == t.rows[i] {
      assert RowFits(t.fields, t.rows[i]);
      UnencodedIsIdentity(CellBlocks(t, columns, i), t.rows[i]);
    }
  }

  /** Blocks that each hold one element, laid end to end, give back the
      elements. */
  lemma {:induction false} UnencodedIsIdentity<T>(bs: seq<seq<T>>, s: seq<T>)
    requires |bs| == |s| && forall j :: 0 <= j < |s| ==> bs[j] == [s[j]]
    ensures Concat(bs) == s
  {
    if |s| > 0 {
      UnencodedIsIdentity(bs[1..], s[1..]);
    }
  }

  /** Column `j`'s block starts at `Offset(j)` in the laid-out header. */
  lemma FieldPosition(t: Table, columns: seq<string>, numLabel: real -> string, j: nat)
    requires WellFormed(t) && j < |t.fields|
    ensures HeaderHolds(Layout(t, columns, numLabel).fields, t, columns, numLabel, j)
  {
    var fbs := FieldBlocks(t, columns, numLabel);
    assert |fbs| == |t.fields| && fbs[j] == FieldBlock(t, columns, numLabel, j);
    assert Layout(t, columns, numLabel).fields == Concat(fbs);
    assert Offset(t, columns, numLabel, j) == |Concat(fbs[..j])|;
    ConcatSlice(fbs, j);
  }

  /** Cell `(i, j)`'s block occupies the same positions of row `i` as
      column `j`'s block does of the header. */
  lemma CellPosition(t: Table, columns: seq<string>, numLabel: real -> string, i: nat, j: nat)
    requires WellFormed(t) && i < |t.rows| && j < |t.fields|
    ensures RowHolds(Layout(t, columns, numLabel).rows[i], t, columns, numLabel, i, j)
  {
    var fbs := FieldBlocks(t, columns, numLabel);
    var cbs := CellBlocks(t, columns, i);
    BlocksSameWidth(t, columns, numLabel, i);
    ConcatPrefixSameLength(fbs, cbs, j);
    assert Layout(t, columns, numLabel).rows[i] == Concat(cbs);
    ConcatSlice(cbs, j);
  }

  /** Each column's header block and cell block have the same width. */
  lemma BlocksSameWidth(t: Table, columns: seq<string>, numLabel: real -> string, i: nat)
    requires WellFormed(t) && i < |t.rows|
    ensures forall m :: 0 <= m < |t.fields| ==>
              |FieldBlocks(t, columns, numLabel)[m]| == |CellBlocks(t, columns, i)[m]|
  {
  }

  /** Element `k` of column `j`'s block, read off the encoded header. */
  lemma HeaderAt(t: Table, columns: seq<string>, numLabel: real -> string, j: nat, k: nat)
    requires WellFormed(t) && j < |t.fields| && k < |FieldBlock(t, columns, numLabel, j)|
    ensures var r := OneHotEncode(t, columns, numLabel);
            var p := Offset(t, columns, numLabel, j) + k;
            p < |r.fields| && r.fields[p] == FieldBlock(t, columns, numLabel, j)[k]
  {
    var r := OneHotEncode(t, columns, numLabel);
    var o := Offset(t, columns, numLabel, j);
    var b := FieldBlock(t, columns, numLabel, j);
    assert HeaderHolds(r.fields, t, columns, numLabel, j);
    assert r.fields[o..o + |b|][k] == r.fields[o + k];
  }

  /** Element `k` of cell `(i, j)`'s block, read off encoded row `i`. */
  lemma CellAt(t: Table, columns: seq<string>, numLabel: real -> string, i: nat, j: nat, k: nat)
    requires WellFormed(t) && i < |t.rows| && j < |t.fields| && k < |CellBlock(t, columns, i, j)|
    ensures var row := OneHotEncode(t, columns, numLabel).rows[i];
            var p := Offset(t, columns, numLabel, j) + k;
            p < |row| && row[p] == CellBlock(t, columns, i, j)[k]
  {
    var row := OneHotEncode(t, columns, numLabel).rows[i];
    var o := Offset(t, columns, numLabel, j);
    var b := CellBlock(t, columns, i, j);
    assert RowHolds(row, t, columns, numLabel, i, j);
    assert row[o..o + |b|][k] == row[o + k];
  }

  /** Indicator `<column>_<v>` of a listed column is a UInt8 column that is
      1 in exactly the rows whose value is `v`, and 0 in the others. */
  lemma IndicatorMeaning(t: Table, columns: seq<string>, numLabel: real -> string, i: nat, j: nat, k: nat)
    requires WellFormed(t) && i < |t.rows| && j < |t.fields| && Encoded(t, columns, j)
    requires k < |Categories(t, j)|
    ensures var r := OneHotEncode(t, columns, numLabel);
            var p := Offset(t, columns, numLabel, j) + k;
            var v := Categories(t, j)[k];
            && p < |r.fields| && |r.rows[i]| == |r.fields|
            && r.fields[p] == Field(t.fields[j].name + "_" + Label(v, numLabel), UInt8)
            && (r.rows[i][p] == Some(Num(1.0)) <==> t.rows[i][j] == v)
            && (r.rows[i][p] == Some(Num(0.0)) <==> t.rows[i][j] != v)
  {
    var r := OneHotEncode(t, columns, numLabel);
    var p := Offset(t, columns, numLabel, j) + k;
    assert RowFits(r.fields, r.rows[i]);
    HeaderAt(t, columns, numLabel, j, k);
    CellAt(t, columns, numLabel, i, j, k);
  }

  /** In every row, exactly one indicator of a listed column is 1: the one
      of the row's own value. */
  lemma ExactlyOneHot(t: Table, columns: seq<string>, numLabel: real -> string, i: nat, j: nat)
    requires WellFormed(t) && i < |t.rows| && j < |t.fields| && Encoded(t, columns, j)
    ensures var r := OneHotEncode(t, columns, numLabel);
            var cats := Categories(t, j);
            var o := Offset(t, columns, numLabel, j);
            && o + |cats| <= |r.rows[i]|
            && (exists k :: 0 <= k < |cats| && cats[k] == t.rows[i][j] && r.rows[i][o + k] == Some(Num(1.0)))
            && (forall k :: 0 <= k < |cats| && cats[k] != t.rows[i][j] ==> r.rows[i][o + k] == Some(Num(0.0)))
  {
    var row := OneHotEncode(t, columns, numLabel).rows[i];
    var cats := Categories(t, j);
    var o := Offset(t, columns, numLabel, j);
    CategoriesCover(t, j, i);
    RowHoldsBlock(t, columns, numLabel, i, j);
    OneHotSlice(row, o, cats, t.rows[i][j]);
  }

  /** Row `i` of the result holds cell `(i, j)`'s indicators at column `j`'s
      offset. */
  lemma RowHoldsBlock(t: Table, columns: seq<string>, numLabel: real -> string, i: nat, j: nat)
    requires WellFormed(t) && i < |t.rows| && j < |t.fields| && Encoded(t, columns, j)
    ensures Offset(t, columns, numLabel, j) + |Categories(t, j)| <= |OneHotEncode(t, columns, numLabel).rows[i]|
    ensures forall k :: 0 <= k < |Categories(t, j)| ==>
              OneHotEncode(t, columns, numLabel).rows[i][Offset(t, columns, numLabel, j) + k] == Indicator(t.rows[i][j], Categories(t, j)[k])
  {
    var cats := Categories(t, j);
    CategoriesCover(t, j, i);
    assert |CellBlock(t, columns, i, j)| == |cats|;
    CellAt(t, columns, numLabel, i, j, |cats| - 1);
    forall k | 0 <= k < |cats|
      ensures Offset(t, columns, numLabel, j) + k < |OneHotEncode(t, columns, numLabel).rows[i]|
      ensures OneHotEncode(t, columns, numLabel).rows[i][Offset(t, columns, numLabel, j) + k] == Indicator(t.rows[i][j], cats[k])
    {
      CellAt(t, columns, numLabel, i, j, k);
    }
  }

  /** A slice of indicators for `v` over distinct categories that include
      `v` has its single 1 at `v`. */
  lemma OneHotSlice(row: seq<Cell>, o: nat, cats: seq<Cell>, v: Cell)
    requires o + |cats| <= |row| && v in cats
    requires forall k :: 0 <= k < |cats| ==> row[o + k] == Indicator(v, cats[k])
    ensures exists k :: 0 <= k < |cats| && cats[k] == v && row[o + k] == Some(Num(1.0))
    ensures forall k :: 0 <= k < |cats| && cats[k] != v ==> row[o + k] == Some(Num(0.0))
  {
    var k0 := IndexOf(cats, v);
    assert row[o + k0] == Indicator(v, cats[k0]);
  }

  /** A position of `x` in `s`. */
  function IndexOf<T(==)>(s: seq<T>, x: T): (k: nat)
    requires x in s
    ensures k < |s| && s[k] == x
  {
    if s[0] == x then 0 else 1 + IndexOf(s[1..], x)
  }

  /** Reading the indicator block back: the category whose indicator is 1. */
  function Decode(cats: seq<Cell>, block: seq<Cell>): (d: Option<Cell>)
    requires |block| == |cats|
    ensures d.Some? ==> d.value in cats
  {
    if |cats| == 0 then None
    else if block[0] == Some(Num(1.0)) then Some(cats[0])
    else Decode(cats[1..], block[1..])
  }

  /** One-hot encoding loses nothing: the original cell is recovered from
      the indicator columns that replaced it in the encoded row. */
  lemma DecodeEncoded(t: Table, columns: seq<string>, numLabel: real -> string, i: nat, j: nat)
    requires WellFormed(t) && i < |t.rows| && j < |t.fields| && Encoded(t, columns, j)
    ensures var row := OneHotEncode(t, columns, numLabel).rows[i];
            var o := Offset(t, columns, numLabel, j);
            var cats := Categories(t, j);
            o + |cats| <= |row| && Decode(cats, row[o..o + |cats|]) == Some(t.rows[i][j])
  {
    CellAt(t, columns, numLabel, i, j, 0);
    assert RowHolds(OneHotEncode(t, columns, numLabel).rows[i], t, columns, numLabel, i, j);
    DecodeBlock(t, columns, i, j);
  }

  /** The cell is recovered from its own indicator block. */
  lemma DecodeBlock(t: Table, columns: seq<string>, i: nat, j: nat)
    requires WellFormed(t) && i < |t.rows| && j < |t.fields| && Encoded(t, columns, j)
    ensures |CellBlock(t, columns, i, j)| == |Categories(t, j)|
    ensures Decode(Categories(t, j), CellBlock(t, columns, i, j)) == Some(t.rows[i][j])
  {
    CategoriesCover(t, j, i);
    DecodeFirstOne(Categories(t, j), CellBlock(t, columns, i, j), t.rows[i][j]);
  }

  lemma {:induction false} DecodeFirstOne(cats: seq<Cell>, block: seq<Cell>, v: Cell)
    requires |block| == |cats| && v in cats
    requires forall k :: 0 <= k < |cats| ==> block[k] == Indicator(v, cats[k])
    ensures Decode(cats, block) == Some(v)
  {
    if cats[0] != v {
      DecodeFirstOne(cats[1..], block[1..], v);
    }
  }

  /** A listed column yields as many indicator columns as it has distinct
      values. */
  lemma IndicatorCount(t: Table, columns: seq<string>, numLabel: real -> string, j: nat)
    requires WellFormed(t) && j < |t.fields| && Encoded(t, columns, j)
    ensures |FieldBlock(t, columns, numLabel, j)| == |set i | 0 <= i < |t.rows| :: t.rows[i][j]|
  {
    var c := Column(t, j);
    DedupCount(c);
    assert (set x | x in c) == (set i | 0 <= i < |t.rows| :: t.rows[i][j]) by {
      forall x | x in c ensures x in (set i | 0 <= i < |t.rows| :: t.rows[i][j]) {
        var i :| 0 <= i < |c| && c[i] == x;
        assert t.rows[i][j] == x;
      }
    }
  }

  /** An unlisted column keeps its header and every cell; unlisted columns
      keep their relative order. */
  lemma UnlistedKept(t: Table, columns: seq<string>, numLabel: real -> string, j: nat, j2: nat)
    requires WellFormed(t) && j < |t.fields| && !Encoded(t, columns, j)
    requires j < j2 <= |t.fields|
    ensures var r := OneHotEncode(t, columns, numLabel);
            var p := Offset(t, columns, numLabel, j);
            && p < Offset(t, columns, numLabel, j2) <= |r.fields|
            && r.fields[p] == t.fields[j]
            && forall i :: 0 <= i < |t.rows| ==> p < |r.rows[i]| && r.rows[i][p] == t.rows[i][j]
  {
    UnlistedHeaderKept(t, columns, numLabel, j, j2);
    UnlistedCellsKept(t, columns, numLabel, j);
  }

  lemma UnlistedHeaderKept(t: Table, columns: seq<string>, numLabel: real -> string, j: nat, j2: nat)
    requires WellFormed(t) && j < |t.fields| && !Encoded(t, columns, j)
    requires j < j2 <= |t.fields|
    ensures var r := OneHotEncode(t, columns, numLabel);
            var p := Offset(t, columns, numLabel, j);
            p < Offset(t, columns, numLabel, j2) <= |r.fields| && r.fields[p] == t.fields[j]
  {
    var fbs := FieldBlocks(t, columns, numLabel);
    ConcatPrefixGrows(fbs, j, j2);
    if j2 < |t.fields| {
      ConcatPrefixGrows(fbs, j2, |t.fields|);
    }
    HeaderAt(t, columns, numLabel, j, 0);
  }

  lemma UnlistedCellsKept(t: Table, columns: seq<string>, numLabel: real -> string, j: nat)
    requires WellFormed(t) && j < |t.fields| && !Encoded(t, columns, j)
    ensures forall i :: 0 <= i < |t.rows| ==>
              var p := Offset(t, columns, numLabel, j);
              p < |OneHotEncode(t, columns, numLabel).rows[i]| && OneHotEncode(t, columns, numLabel).rows[i][p] == t.rows[i][j]
  {
    forall i | 0 <= i < |t.rows|
      ensures Offset(t, columns, numLabel, j) < |OneHotEncode(t, columns, numLabel).rows[i]|
      ensures OneHotEncode(t, columns, numLabel).rows[i][Offset(t, columns, numLabel, j)] == t.rows[i][j]
    {
      CellAt(t, columns, numLabel, i, j, 0);
    }
  }

  /** `engineer`: one-hot encoding runs only when `one_hot_encoding` lists
      at least one column. */
  function Engineer(t: Table, oneHotColumns: seq<string>, numLabel: real -> string): (r: Table)
    requires WellFormed(t)
    ensures |oneHotColumns| == 0 ==> r == t
    ensures |oneHotColumns| > 0 ==> r == OneHotEncode(t, oneHotColumns, numLabel)
    ensures WellFormed(r) && |r.rows| == |t.rows|
  {
    if |oneHotColumns| > 0 then
      OneHotEncode(t, oneHotColumns, numLabel)
    else t
  }

  /** Whether or not the gate opens, a configuration that names no column
      of the table leaves the table as it was. */
  lemma EngineerIgnoresAbsentNames(t: Table, oneHotColumns: seq<string>, numLabel: real -> string)
    requires WellFormed(t)
    requires forall j :: 0 <= j < |t.fields| ==> t.fields[j].name !in oneHotColumns
    ensures Engineer(t, oneHotColumns, numLabel) == t
  {
    if |oneHotColumns| > 0 {
      NothingListedIsIdentity(t, oneHotColumns, numLabel);
    }
  }
}
