/** Generic sequence operations shared by the table transforms: order-preserving
    filtering, first-occurrence deduplication, removal of the first occurrence
    (Python's `list.remove`) and flattening of a sequence of blocks. */
module Seqs {

  /** No element occurs twice. */
  predicate NoDuplicates<T(==)>(s: seq<T>) {
    forall i, j :: 0 <= i < j < |s| ==> s[i] != s[j]
  }

  /** The elements of `s` satisfying `keep`, in their original order. */
  function Filter<T(!new)>(keep: T -> bool, s: seq<T>): (r: seq<T>)
    ensures |r| <= |s|
    ensures forall x :: x in r <==> x in s && keep(x)
  {
    if |s| == 0 then []
    else (if keep(s[0]) then [s[0]] else []) + Filter(keep, s[1..])
  }

  /** Filtering distributes over concatenation: together with the one-element
      case this pins `Filter` down as the order-preserving selection. */
  lemma {:induction false} FilterAppend<T(!new)>(keep: T -> bool, a: seq<T>, b: seq<T>)
    ensures Filter(keep, a + b) == Filter(keep, a) + Filter(keep, b)
  {
    if |a| == 0 {
      assert a + b == b;
    } else {
      assert (a + b)[1..] == a[1..] + b;
      FilterAppend(keep, a[1..], b);
    }
  }

  /** Filtering twice with the same test is filtering once. */
  lemma {:induction false} FilterIdempotent<T(!new)>(keep: T -> bool, s: seq<T>)
    ensures Filter(keep, Filter(keep, s)) == Filter(keep, s)
  {
    if |s| > 0 {
      FilterIdempotent(keep, s[1..]);
      var r := Filter(keep, s);
      if keep(s[0]) {
        assert r == [s[0]] + Filter(keep, s[1..]);
        assert r[1..] == Filter(keep, s[1..]);
      } else {
        assert r == [] + Filter(keep, s[1..]);
        assert r == Filter(keep, s[1..]);
      }
    }
  }

  /** Filtering a duplicate-free sequence keeps it duplicate-free. */
  lemma {:induction false} FilterNoDuplicates<T(!new)>(keep: T -> bool, s: seq<T>)
    requires NoDuplicates(s)
    ensures NoDuplicates(Filter(keep, s))
  {
    if |s| > 0 {
      var tail := s[1..];
      assert NoDuplicates(tail) by {
        forall i, j | 0 <= i < j < |tail| ensures tail[i] != tail[j] {
          assert tail[i] == s[i + 1] && tail[j] == s[j + 1];
        }
      }
      FilterNoDuplicates(keep, tail);
      forall k | 0 <= k < |tail| ensures tail[k] != s[0] {
        assert tail[k] == s[k + 1];
      }
      var r := Filter(keep, s);
      if keep(s[0]) {
        assert r == [s[0]] + Filter(keep, tail);
        assert s[0] !in Filter(keep, tail);
      } else {
        assert r == Filter(keep, tail);
      }
    }
  }

  /** The first occurrence of every element, in order of first occurrence. */
  function Dedup<T(==,!new)>(s: seq<T>): (r: seq<T>)
    ensures NoDuplicates(r)
    ensures forall x :: x in r <==> x in s
    ensures |r| <= |s|
  {
    if |s| == 0 then []
    else
      var init := s[..|s| - 1];
      var p := Dedup(init);
      if s[|s| - 1] in init then p else p + [s[|s| - 1]]
  }

  /** A duplicate-free sequence has as many elements as its set. */
  lemma {:induction false} DistinctCardinality<T>(s: seq<T>)
    requires NoDuplicates(s)
    ensures |set x | x in s| == |s|
  {
    if |s| > 0 {
      var init := s[..|s| - 1];
      var last := s[|s| - 1];
      assert NoDuplicates(init);
      DistinctCardinality(init);
      forall k | 0 <= k < |init|
        ensures init[k] != last
      {
        assert init[k] == s[k];
      }
      assert (set x | x in s) == (set x | x in init) + {last} by {
        assert s == init + [last];
      }
    }
  }

  /** Deduplication yields exactly one element per distinct value. */
  lemma DedupCount<T(!new)>(s: seq<T>)
    ensures |Dedup(s)| == |set x | x in s|
  {
    DistinctCardinality(Dedup(s));
    assert (set x | x in Dedup(s)) == (set x | x in s);
  }

  /** Deduplicating a duplicate-free sequence changes nothing. */
  lemma {:induction false} DedupOfDistinct<T(!new)>(s: seq<T>)
    requires NoDuplicates(s)
    ensures Dedup(s) == s
  {
    if |s| > 0 {
      var init := s[..|s| - 1];
      assert NoDuplicates(init);
      DedupOfDistinct(init);
      forall k | 0 <= k < |init|
        ensures init[k] != s[|s| - 1]
      {
        assert init[k] == s[k];
      }
      assert s == init + [s[|s| - 1]];
    }
  }

  /** Deduplication is idempotent. */
  lemma DedupIdempotent<T(!new)>(s: seq<T>)
    ensures Dedup(Dedup(s)) == Dedup(s)
  {
    DedupOfDistinct(Dedup(s));
  }

  /** Python's `list.remove(x)`, without the error for an absent `x`:
      drops the first occurrence of `x`. */
  function RemoveFirst<T(==,!new)>(s: seq<T>, x: T): (r: seq<T>)
    ensures x in s ==> |r| == |s| - 1
    ensures x !in s ==> r == s
    ensures forall y :: y != x ==> (y in r <==> y in s)
  {
    if |s| == 0 then []
    else if s[0] == x then s[1..]
    else [s[0]] + RemoveFirst(s[1..], x)
  }

  /** The blocks of `ss` laid end to end. */
  function Concat<T>(ss: seq<seq<T>>): seq<T> {
    if |ss| == 0 then [] else ss[0] + Concat(ss[1..])
  }

  lemma {:induction false} ConcatAppend<T>(a: seq<seq<T>>, b: seq<seq<T>>)
    ensures Concat(a + b) == Concat(a) + Concat(b)
  {
    if |a| == 0 {
      assert a + b == b;
    } else {
      assert (a + b)[1..] == a[1..] + b;
      ConcatAppend(a[1..], b);
    }
  }

  /** Block `j` sits in the concatenation right after the blocks before
      `j`. */
  lemma ConcatSlice<T>(ss: seq<seq<T>>, j: nat)
    requires j < |ss|
    ensures var o := |Concat(ss[..j])|;
            o + |ss[j]| <= |Concat(ss)| && Concat(ss)[o..o + |ss[j]|] == ss[j]
  {
    var pre, post := ss[..j], ss[j..];
    assert ss == pre + post;
    ConcatAppend(pre, post);
    assert post[0] == ss[j] && post[1..] == ss[j + 1..];
    assert Concat(post) == ss[j] + Concat(ss[j + 1..]);
    assert Concat(ss) == Concat(pre) + (ss[j] + Concat(ss[j + 1..]));
  }

  /** Blocks of matching lengths concatenate to sequences of matching lengths,
      and the prefixes before any block have matching lengths too. */
  lemma {:induction false} ConcatSameLengths<T, U>(a: seq<seq<T>>, b: seq<seq<U>>)
    requires |a| == |b|
    requires forall j :: 0 <= j < |a| ==> |a[j]| == |b[j]|
    ensures |Concat(a)| == |Concat(b)|
  {
    if |a| > 0 {
      ConcatSameLengths(a[1..], b[1..]);
    }
  }

  /** A relation that holds blockwise between two block sequences of
      matching shape holds pointwise between their concatenations. */
  lemma {:induction false} ConcatPairwise<T, U>(a: seq<seq<T>>, b: seq<seq<U>>, rel: (T, U) -> bool)
    requires |a| == |b|
    requires forall j :: 0 <= j < |a| ==> |a[j]| == |b[j]|
    requires forall j, k :: 0 <= j < |a| && 0 <= k < |a[j]| ==> rel(a[j][k], b[j][k])
    ensures |Concat(a)| == |Concat(b)|
    ensures forall p :: 0 <= p < |Concat(a)| ==> rel(Concat(a)[p], Concat(b)[p])
  {
    ConcatSameLengths(a, b);
    if |a| > 0 {
      ConcatPairwise(a[1..], b[1..], rel);
      assert forall j :: 0 <= j < |a[1..]| ==> a[1..][j] == a[j + 1] && b[1..][j] == b[j + 1];
      forall p | 0 <= p < |Concat(a)| ensures rel(Concat(a)[p], Concat(b)[p]) {
        if p < |a[0]| {
          assert rel(a[0][p], b[0][p]);
        } else {
          assert Concat(a)[p] == Concat(a[1..])[p - |a[0]|];
        }
      }
    }
  }

  /** Blocks before `j` take up no more room than blocks before a later
      `j2`, less the room of block `j` itself. */
  lemma ConcatPrefixGrows<T>(ss: seq<seq<T>>, j: nat, j2: nat)
    requires j < j2 <= |ss|
    ensures |Concat(ss[..j])| + |ss[j]| <= |Concat(ss[..j2])|
  {
    assert ss[..j2] == ss[..j] + ([ss[j]] + ss[j + 1..j2]);
    ConcatAppend(ss[..j], [ss[j]] + ss[j + 1..j2]);
    ConcatAppend([ss[j]], ss[j + 1..j2]);
    assert Concat([ss[j]]) == ss[j] + Concat([ss[j]][1..]);
  }

  /** Blocks of matching widths put block `j` at the same offset. */
  lemma ConcatPrefixSameLength<T, U>(a: seq<seq<T>>, b: seq<seq<U>>, j: nat)
    requires |a| == |b| && j <= |a|
    requires forall m :: 0 <= m < |a| ==> |a[m]| == |b[m]|
    ensures |Concat(a[..j])| == |Concat(b[..j])|
  {
    ConcatSameLengths(a[..j], b[..j]);
  }
}
