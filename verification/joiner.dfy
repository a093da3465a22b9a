/**
  `Joiner.Join`: join the set cells by rows and, when that gives two or more rectangles,
  also by columns; keep the join with strictly fewer rectangles (rows on a tie) and sort
  it by `CellRect.CompareTo`, that is by left edge and then by top edge.
*/
module Joiner {
  import opened Errors
  import opened Grid
  import opened Rects
  import opened Scanning
  import opened Directions
  import Merging

  /** Every rectangle comes no later than every rectangle after it. */
  predicate Sorted(rects: seq<CellRect>) {
    forall i, j :: 0 <= i < j < |rects| ==> NotAfter(rects[i], rects[j])
  }

  /** Every rectangle comes strictly before every rectangle after it. */
  predicate StrictlySorted(rects: seq<CellRect>) {
    forall i, j :: 0 <= i < j < |rects| ==> Before(rects[i], rects[j])
  }

  /** Put `r` in front of the first rectangle it does not come after. */
  function Insert(r: CellRect, sorted: seq<CellRect>): (s: seq<CellRect>)
    ensures multiset(s) == multiset(sorted) + multiset{r}
  {
    if |sorted| == 0 then [r]
    else if CompareTo(r, Some(sorted[0])) <= 0 then [r] + sorted
    else
      assert sorted == [sorted[0]] + sorted[1..];
      [sorted[0]] + Insert(r, sorted[1..])
  }

  /** Inserting into a sorted sequence keeps it sorted. */
  lemma {:induction false} InsertSorted(r: CellRect, sorted: seq<CellRect>)
    requires Sorted(sorted)
    ensures Sorted(Insert(r, sorted))
    decreases |sorted|
  {
    var s := Insert(r, sorted);
    if |sorted| == 0 {
    } else if CompareTo(r, Some(sorted[0])) <= 0 {
      forall j | 0 < j < |s| ensures NotAfter(s[0], s[j]) {
        assert s[j] == sorted[j - 1];
        if j > 1 { assert NotAfter(sorted[0], sorted[j - 1]); }
      }
    } else {
      var rest := Insert(r, sorted[1..]);
      InsertSorted(r, sorted[1..]);
      assert s == [sorted[0]] + rest;
      forall j | 0 < j < |s| ensures NotAfter(s[0], s[j]) {
        assert s[j] == rest[j - 1];
        assert s[j] in multiset(rest);
        if s[j] != r {
          assert s[j] in multiset(sorted[1..]);
          var k :| 1 <= k < |sorted| && sorted[k] == s[j];
          assert NotAfter(sorted[0], sorted[k]);
        }
      }
      forall i, j | 0 < i < j < |s| ensures NotAfter(s[i], s[j]) {
        assert s[i] == rest[i - 1] && s[j] == rest[j - 1];
      }
    }
  }

  /** The sort `List.Sort` performs with `CellRect.CompareTo`, as an insertion sort. */
  function Sort(rects: seq<CellRect>): (s: seq<CellRect>)
    ensures multiset(s) == multiset(rects)
    ensures Sorted(s)
  {
    if |rects| == 0 then []
    else
      assert rects == [rects[0]] + rects[1..];
      InsertSorted(rects[0], Sort(rects[1..]));
      Insert(rects[0], Sort(rects[1..]))
  }

  /** No two rectangles of `rects` tie in the ordering. */
  predicate DistinctKeys(rects: seq<CellRect>) {
    forall i, j :: 0 <= i < j < |rects| ==> CompareTo(rects[i], Some(rects[j])) != 0
  }

  /** Proper, pairwise disjoint rectangles never tie, so any sort of them is strict. */
  lemma {:induction false} DisjointKeys(rects: seq<CellRect>)
    requires forall j :: 0 <= j < |rects| ==> Proper(rects[j])
    requires PairwiseDisjoint(rects)
    ensures DistinctKeys(rects)
  {
    forall i, j | 0 <= i < j < |rects| ensures CompareTo(rects[i], Some(rects[j])) != 0 {
      DisjointDistinctKeys(rects[i], rects[j]);
    }
  }

  lemma {:induction false} SortedStrictly(rects: seq<CellRect>)
    requires Sorted(rects) && DistinctKeys(rects)
    ensures StrictlySorted(rects)
  {
    forall i, j | 0 <= i < j < |rects| ensures Before(rects[i], rects[j]) {
      assert NotAfter(rects[i], rects[j]);
      assert CompareTo(rects[i], Some(rects[j])) != 0;
    }
  }

  /** Two equal entries at different places count twice in the multiset. */
  lemma {:induction false} RepeatCounts(s: seq<CellRect>, i: int, j: int)
    requires 0 <= i < j < |s| && s[i] == s[j]
    ensures multiset(s)[s[i]] >= 2
  {
    assert s == s[..j] + [s[j]] + s[j + 1..];
    assert s[i] in s[..j];
    assert multiset(s[..j])[s[i]] >= 1;
  }

  /** A sequence without repeats counts each entry at most once. */
  lemma {:induction false} NoRepeatCounts(s: seq<CellRect>, r: CellRect)
    requires forall i, j :: 0 <= i < j < |s| ==> s[i] != s[j]
    ensures multiset(s)[r] <= 1
    decreases |s|
  {
    if |s| > 0 {
      assert s == [s[0]] + s[1..];
      NoRepeatCounts(s[1..], r);
      if s[0] == r {
        assert r !in s[1..];
      }
    }
  }

  /** Proper rectangles that are pairwise disjoint are pairwise different. */
  lemma {:induction false} DisjointNoRepeats(rects: seq<CellRect>)
    requires forall j :: 0 <= j < |rects| ==> Proper(rects[j])
    requires PairwiseDisjoint(rects)
    ensures forall i, j :: 0 <= i < j < |rects| ==> rects[i] != rects[j]
  {
    forall i, j | 0 <= i < j < |rects| ensures rects[i] != rects[j] {
      ProperNotSelfDisjoint(rects[i]);
      assert Disjoint(rects[i], rects[j]);
    }
  }

  /** A permutation keeps every membership-defined property of the rectangles. */
  lemma {:induction false} PermutationKeeps(rects: seq<CellRect>, s: seq<CellRect>)
    requires multiset(s) == multiset(rects)
    requires forall j :: 0 <= j < |rects| ==> Proper(rects[j])
    requires PairwiseDisjoint(rects)
    ensures |s| == |rects|
    ensures forall j :: 0 <= j < |s| ==> Proper(s[j])
    ensures PairwiseDisjoint(s)
    ensures forall x, y :: Covered(s, x, y) <==> Covered(rects, x, y)
  {
    assert |s| == |multiset(s)| == |multiset(rects)| == |rects|;
    forall j | 0 <= j < |s| ensures s[j] in rects {
      assert s[j] in multiset(rects);
    }
    DisjointNoRepeats(rects);
    forall i, j | 0 <= i < j < |s| ensures Disjoint(s[i], s[j]) {
      if s[i] == s[j] {
        RepeatCounts(s, i, j);
        NoRepeatCounts(rects, s[i]);
      }
      var i' :| 0 <= i' < |rects| && rects[i'] == s[i];
      var j' :| 0 <= j' < |rects| && rects[j'] == s[j];
      if i' < j' {
        assert Disjoint(rects[i'], rects[j']);
      } else {
        assert Disjoint(rects[j'], rects[i']);
      }
    }
    forall x, y ensures Covered(s, x, y) <==> Covered(rects, x, y) {
      CoveredIn(s, x, y);
      CoveredIn(rects, x, y);
      forall r ensures r in s <==> r in rects {
        assert r in s <==> r in multiset(s);
      }
    }
  }

  /** A proper rectangle shares its cells with itself. */
  lemma ProperNotSelfDisjoint(r: CellRect)
    requires Proper(r)
    ensures !Disjoint(r, r)
  {
  }

  /** A rectangle that holds a single maximal run in each of its rows, or in each of its columns. */
  predicate Block(a: CellArray, r: CellRect)
    requires Valid(a)
  {
    Merging.Block(a, r, ByRows) || Merging.Block(a, r, ByColumns)
  }

  /** A block holds at least one cell. */
  lemma BlockProper(a: CellArray, r: CellRect)
    requires Valid(a) && Block(a, r)
    ensures Proper(r)
  {
    var d := if Merging.Block(a, r, ByRows) then ByRows else ByColumns;
    assert MaximalSpan(Line(a, d, First(r, d)), Span(Start(r, d), End(r, d)));
  }

  /** The join `Join` keeps once both are made: by columns when strictly smaller, else by rows. */
  function Smaller(a: CellArray): seq<CellRect>
    requires Valid(a)
  {
    var byRows := Merging.Joined(a, ByRows);
    var byColumns := Merging.Joined(a, ByColumns);
    if |byColumns| < |byRows| then byColumns else byRows
  }

  /**
    `Join`: the join by rows when it has fewer than two rectangles; otherwise the smaller of
    the joins by rows and by columns (rows on a tie), sorted. Either way the rectangles are
    blocks, pairwise disjoint, sorted strictly by (left, top), and together they cover
    exactly the set cells of the grid.
  */
  method Join(a: CellArray) returns (result: seq<CellRect>)
    requires Valid(a)
    ensures |Merging.Joined(a, ByRows)| < 2 ==> result == Merging.Joined(a, ByRows)
    ensures |Merging.Joined(a, ByRows)| >= 2 ==> result == Sort(Smaller(a))
    ensures |result| <= |Merging.Joined(a, ByRows)|
    ensures |Merging.Joined(a, ByRows)| >= 2 ==> |result| <= |Merging.Joined(a, ByColumns)|
    ensures forall j :: 0 <= j < |result| ==> Block(a, result[j])
    ensures PairwiseDisjoint(result)
    ensures StrictlySorted(result)
    ensures forall x, y :: InGrid(a, x, y) ==> (Covered(result, x, y) <==> Cell(a, x, y))
  {
    var byRows, rowRuns := Merging.JoinBy(a, ByRows);
    if |byRows| < 2 {
      result := byRows;
      if |byRows| == 1 {
        assert Block(a, result[0]);
      }
      return;
    }
    var byColumns, columnRuns := Merging.JoinBy(a, ByColumns);
    var chosen := if |byColumns| < |byRows| then byColumns else byRows;
    forall j | 0 <= j < |chosen| ensures Block(a, chosen[j]) && Proper(chosen[j]) {
      BlockProper(a, chosen[j]);
    }
    result := Sort(chosen);
    PermutationKeeps(chosen, result);
    forall j | 0 <= j < |result| ensures Block(a, result[j]) {
      assert result[j] in multiset(chosen);
    }
    DisjointKeys(result);
    SortedStrictly(result);
  }
}
