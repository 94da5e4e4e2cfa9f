/** `check_columns` from `proxiflow/core/core_utils.py`: narrows a requested
    column list to the names the table has, failing when none of them is
    there. */
module CoreUtils {
  import opened Wrappers
  import opened Seqs
  import opened Errors

  const AllMissingMessage := "All columns specified for normalization are missing in the DataFrame."

  /** The requested names that are not table columns, one entry per
      occurrence, in request order (the first loop of `check_columns`). */
  function MissingColumns(names: seq<string>, columns: seq<string>): (m: seq<string>)
    ensures |m| <= |columns|
    ensures forall c :: c in m <==> c in columns && c !in names
  {
    Filter((c: string) => c !in names, columns)
  }

  /** Removes each entry of `missing` in turn with `list.remove` (the second
      loop of `check_columns`). */
  function RemoveEach(columns: seq<string>, missing: seq<string>): seq<string>
    decreases |missing|
  {
    if |missing| == 0 then columns
    else RemoveEach(RemoveFirst(columns, missing[0]), missing[1..])
  }

  /** Removing names that are not `c` commutes with a leading `c`. */
  lemma {:induction false} RemoveEachSkipsHead(c: string, rest: seq<string>, missing: seq<string>)
    requires c !in missing
    ensures RemoveEach([c] + rest, missing) == [c] + RemoveEach(rest, missing)
    decreases |missing|
  {
    if |missing| > 0 {
      assert ([c] + rest)[1..] == rest;
      assert RemoveFirst([c] + rest, missing[0]) == [c] + RemoveFirst(rest, missing[0]);
      RemoveEachSkipsHead(c, RemoveFirst(rest, missing[0]), missing[1..]);
    }
  }

  /** Removing every missing occurrence, one `remove` at a time, leaves
      exactly the present names in request order. */
  lemma {:induction false} RemoveEachMissing(names: seq<string>, columns: seq<string>)
    ensures RemoveEach(columns, MissingColumns(names, columns)) == Filter((c: string) => c in names, columns)
  {
    var present := (c: string) => c in names;
    var absent := (c: string) => c !in names;
    if |columns| > 0 {
      var c, rest := columns[0], columns[1..];
      RemoveEachMissing(names, rest);
      if c in names {
        assert MissingColumns(names, columns) == MissingColumns(names, rest);
        RemoveEachSkipsHead(c, rest, MissingColumns(names, rest));
        assert columns == [c] + rest;
      } else {
        assert MissingColumns(names, columns) == [c] + MissingColumns(names, rest);
        assert RemoveFirst(columns, c) == rest;
        assert Filter(present, columns) == Filter(present, rest);
      }
    }
  }

  /** `check_columns(df, columns)` where `names` are `df.columns`.
      The result keeps, in request order, exactly the requested entries that
      are table columns; it fails when no requested entry is a column,
      including when nothing was requested. */
  function CheckColumns(names: seq<string>, columns: seq<string>): (r: Result<seq<string>, Error>)
    ensures r.Failure? <==> forall k :: 0 <= k < |columns| ==> columns[k] !in names
    ensures r.Failure? ==> r.error == ValueError(AllMissingMessage)
    ensures r.Success? ==> r.value == Filter((c: string) => c in names, columns)
    ensures r.Success? ==> |r.value| > 0 && forall c :: c in r.value ==> c in names
    ensures |columns| > 0 && (forall k :: 0 <= k < |columns| ==> columns[k] in names) ==> r == Success(columns)
  {
    var missing := MissingColumns(names, columns);
    if |missing| == |columns| then
      MissingCountAll(names, columns);
      Failure(ValueError(AllMissingMessage))
    else
      MissingCountAll(names, columns);
      RemoveEachMissing(names, columns);
      if |missing| > 0 then Success(RemoveEach(columns, missing))
      else Success(columns)
  }

  /** As many missing entries as requested entries means every entry is
      missing. */
  lemma {:induction false} MissingCountAll(names: seq<string>, columns: seq<string>)
    ensures |MissingColumns(names, columns)| == |columns| <==> forall k :: 0 <= k < |columns| ==> columns[k] !in names
    ensures |MissingColumns(names, columns)| == 0 ==> Filter((c: string) => c in names, columns) == columns
  {
    AllMissingCount(names, columns);
    NoneMissingKept(names, columns);
  }

  lemma {:induction false} AllMissingCount(names: seq<string>, columns: seq<string>)
    ensures |MissingColumns(names, columns)| == |columns| <==> forall k :: 0 <= k < |columns| ==> columns[k] !in names
  {
    if |columns| > 0 {
      var rest := columns[1..];
      AllMissingCount(names, rest);
      assert MissingColumns(names, columns) ==
             (if columns[0] !in names then [columns[0]] else []) + MissingColumns(names, rest);
      assert forall k :: 1 <= k < |columns| ==> columns[k] == rest[k - 1];
    }
  }

  lemma {:induction false} NoneMissingKept(names: seq<string>, columns: seq<string>)
    ensures |MissingColumns(names, columns)| == 0 ==> Filter((c: string) => c in names, columns) == columns
  {
    if |columns| > 0 && |MissingColumns(names, columns)| == 0 {
      var rest := columns[1..];
      assert columns[0] in columns;
      NoneMissingKept(names, rest);
      assert MissingColumns(names, columns) == MissingColumns(names, rest);
      assert columns == [columns[0]] + rest;
    }
  }

  /** Checking an already checked list again changes nothing. */
  lemma CheckColumnsIdempotent(names: seq<string>, columns: seq<string>)
    requires CheckColumns(names, columns).Success?
    ensures CheckColumns(names, CheckColumns(names, columns).value) == CheckColumns(names, columns)
  {
    FilterIdempotent((c: string) => c in names, columns);
  }
}
