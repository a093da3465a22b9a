/**
  `JoinByRows` and `JoinByColumns`, one definition for both directions: the scanned runs are
  grouped by where they start (groups in the order their first run was scanned, as the
  dictionary of buckets enumerates them), and inside a group a run that continues the
  block on the line before it (same end, next line) absorbs that block, walking the group
  from its last run to its first.
*/
module Merging {
  import opened Grid
  import opened Rects
  import opened Scanning
  import opened Directions
  import opened Buckets

  /** A rectangle each of whose lines holds the same maximal run. */
  predicate Block(a: CellArray, r: CellRect, d: Direction)
    requires Valid(a)
  {
    && 0 <= First(r, d) <= Last(r, d) < Lines(a, d)
    && forall v :: First(r, d) <= v <= Last(r, d) ==> MaximalSpan(Line(a, d, v), Span(Start(r, d), End(r, d)))
  }

  /** Some run starts at `k`. */
  predicate HasStart(rects: seq<CellRect>, k: int, d: Direction) {
    exists r :: r in rects && Start(r, d) == k
  }

  /** Each rectangle lies on lines wholly before those of the next. */
  predicate Stacked(rects: seq<CellRect>, d: Direction) {
    forall i, j :: 0 <= i < j < |rects| ==> Last(rects[i], d) < First(rects[j], d)
  }

  /** Every rectangle is a block starting at `k`. */
  predicate BlocksAt(a: CellArray, rects: seq<CellRect>, d: Direction, k: int)
    requires Valid(a)
  {
    forall j :: 0 <= j < |rects| ==> Block(a, rects[j], d) && Start(rects[j], d) == k
  }

  /** The merge test: `current` ends where `prev` ends and begins on the line after `prev`'s last. */
  predicate Continues(current: CellRect, prev: CellRect, d: Direction) {
    End(current, d) == End(prev, d) && First(current, d) == Last(prev, d) + 1
  }

  /** No rectangle continues another with the same start: nothing is left to merge. */
  predicate Settled(rects: seq<CellRect>, d: Direction) {
    forall i, j :: 0 <= i < |rects| && 0 <= j < |rects| ==>
      !(Start(rects[j], d) == Start(rects[i], d) && Continues(rects[j], rects[i], d))
  }

  /** A run is a block one line thick. */
  lemma RunIsBlock(a: CellArray, r: CellRect, d: Direction)
    requires Valid(a) && Run(a, r, d)
    ensures Block(a, r, d) && First(r, d) == Last(r, d)
  {
  }

  /** Blocks that start at different places share no cell. */
  lemma {:induction false} BlocksApart(a: CellArray, r: CellRect, q: CellRect, d: Direction)
    requires Valid(a) && Block(a, r, d) && Block(a, q, d) && Start(r, d) != Start(q, d)
    ensures Disjoint(r, q)
  {
    DisjointAlong(r, q, d);
    if !(Last(r, d) < First(q, d) || Last(q, d) < First(r, d)) {
      var v := if First(r, d) < First(q, d) then First(q, d) else First(r, d);
      assert MaximalSpan(Line(a, d, v), Span(Start(r, d), End(r, d)));
      assert MaximalSpan(Line(a, d, v), Span(Start(q, d), End(q, d)));
      if Start(r, d) < Start(q, d) {
        MaximalSpansApart(Line(a, d, v), Span(Start(r, d), End(r, d)), Span(Start(q, d), End(q, d)));
      } else {
        MaximalSpansApart(Line(a, d, v), Span(Start(q, d), End(q, d)), Span(Start(r, d), End(r, d)));
      }
    }
  }

  /** A bucket is a subsequence, so the scanner order carries over to it. */
  lemma {:induction false} BucketOrdered(rects: seq<CellRect>, d: Direction, k: int, keep: bool)
    requires Ordered(rects, d)
    ensures Ordered(Bucket(rects, d, k, keep), d)
  {
    if |rects| > 0 {
      assert Ordered(rects[1..], d);
      BucketOrdered(rects[1..], d, k, keep);
      var tail := Bucket(rects[1..], d, k, keep);
      if (Start(rects[0], d) == k) == keep {
        var b := [rects[0]] + tail;
        forall i, j | 0 <= i < j < |b|
          ensures Precedes(b[i], b[j], d)
        {
          assert b[j] == tail[j - 1];
          if i == 0 {
            assert b[j] in rects[1..];
            var m :| 0 <= m < |rects[1..]| && rects[1..][m] == b[j];
            assert rects[m + 1] == b[j];
          } else {
            assert b[i] == tail[i - 1];
          }
        }
      }
    }
  }

  /** Runs with one start, in scanner order, lie on successive lines. */
  lemma {:induction false} SameStartStacked(a: CellArray, b: seq<CellRect>, d: Direction, k: int)
    requires Valid(a) && Ordered(b, d)
    requires forall j :: 0 <= j < |b| ==> Run(a, b[j], d) && Start(b[j], d) == k
    ensures Stacked(b, d)
  {
    forall i, j | 0 <= i < j < |b|
      ensures Last(b[i], d) < First(b[j], d)
    {
      RunIsBlock(a, b[i], d);
      assert Precedes(b[i], b[j], d);
    }
  }

  /** The merged rectangle: `current` grown by one line towards `prev`. */
  function Grow(r: CellRect, d: Direction): (g: CellRect)
    ensures First(g, d) == First(r, d) - 1 && Last(g, d) == Last(r, d)
    ensures Start(g, d) == Start(r, d) && End(g, d) == End(r, d)
  {
    match d
    case ByRows => r.(top := r.top - 1)
    case ByColumns => r.(left := r.left - 1)
  }

  /** Run `i - 1` absorbed into run `i`: run `i` grows by one line and run `i - 1` goes. */
  function Absorb(b: seq<CellRect>, i: int, d: Direction): (m: seq<CellRect>)
    requires 0 < i < |b|
    ensures |m| == |b| - 1
    ensures m[i - 1] == Grow(b[i], d)
    ensures forall j :: 0 <= j < i - 1 ==> m[j] == b[j]
    ensures forall j :: i <= j < |m| ==> m[j] == b[j + 1]
  {
    b[..i - 1] + [Grow(b[i], d)] + b[i + 1..]
  }

  /** The merge loop as a function: from position `i` down to 1, absorb where the test holds. */
  function MergeDown(b: seq<CellRect>, i: int, d: Direction): seq<CellRect>
    requires 0 <= i < |b|
    decreases i
  {
    if i == 0 then b
    else if Continues(b[i], b[i - 1], d) then MergeDown(Absorb(b, i, d), i - 1, d)
    else MergeDown(b, i - 1, d)
  }

  /** One bucket after the merge loop. */
  function MergeRuns(bucket: seq<CellRect>, d: Direction): seq<CellRect> {
    if |bucket| == 0 then [] else MergeDown(bucket, |bucket| - 1, d)
  }

  /** A one-line block grown into the block after it covers the cells of both. */
  lemma {:induction false} GrowCovers(current: CellRect, prev: CellRect, d: Direction, x: int, y: int)
    requires First(prev, d) == Last(prev, d) && First(current, d) == Last(prev, d) + 1 <= Last(current, d) + 1
    requires Start(current, d) == Start(prev, d) && End(current, d) == End(prev, d)
    ensures Contains(Grow(current, d), x, y) <==> Contains(current, x, y) || Contains(prev, x, y)
  {
    ContainsAlong(Grow(current, d), d, x, y);
    ContainsAlong(current, d, x, y);
    ContainsAlong(prev, d, x, y);
  }

  /** Absorbing run `i - 1` into the block after it keeps the covered cells. */
  lemma {:induction false} AbsorbCovers(b: seq<CellRect>, i: int, d: Direction, x: int, y: int)
    requires 0 < i < |b| && First(b[i - 1], d) == Last(b[i - 1], d)
    requires First(b[i], d) == Last(b[i - 1], d) + 1 <= Last(b[i], d) + 1
    requires Start(b[i], d) == Start(b[i - 1], d) && End(b[i], d) == End(b[i - 1], d)
    ensures Covered(Absorb(b, i, d), x, y) <==> Covered(b, x, y)
  {
    var m := Absorb(b, i, d);
    GrowCovers(b[i], b[i - 1], d, x, y);
    if Covered(b, x, y) {
      var j :| 0 <= j < |b| && Contains(b[j], x, y);
      if j < i - 1 {
        assert Contains(m[j], x, y);
      } else if j <= i {
        assert Contains(m[i - 1], x, y);
      } else {
        assert Contains(m[j - 1], x, y);
      }
    }
    if Covered(m, x, y) {
      var j :| 0 <= j < |m| && Contains(m[j], x, y);
      if j < i - 1 {
        assert Contains(b[j], x, y);
      } else if j == i - 1 {
        assert Contains(b[i - 1], x, y) || Contains(b[i], x, y);
      } else {
        assert Contains(b[j + 1], x, y);
      }
    }
  }

  /**
    The state of the merge loop before the step at position `i`: what is left to do gives
    the merged bucket, the runs before `i` are untouched, every rectangle is a block with
    the bucket's start, the blocks are stacked and cover the bucket's cells, and from `i`
    on no block continues the one before it.
  */
  ghost predicate MergeState(a: CellArray, bucket: seq<CellRect>, b: seq<CellRect>, i: int, d: Direction)
    requires Valid(a) && |bucket| >= 1
  {
    && 0 <= i < |b| <= |bucket|
    && MergeDown(b, i, d) == MergeRuns(bucket, d)
    && b[..i] == bucket[..i]
    && BlocksAt(a, b, d, Start(bucket[0], d))
    && Stacked(b, d)
    && SameCover(b, bucket)
    && forall k :: i <= k < |b| - 1 ==> !Continues(b[k + 1], b[k], d)
  }

  /**
    The merge loop over one bucket: walking back from the last run, a run that continues
    the one before it absorbs it. The result is the function `MergeRuns`; its blocks keep
    the bucket's start, cover the bucket's cells, and none of them continues another.
  */
  method MergeBucket(a: CellArray, bucket: seq<CellRect>, d: Direction) returns (b: seq<CellRect>)
    requires Valid(a) && |bucket| >= 1 && Stacked(bucket, d)
    requires forall j :: 0 <= j < |bucket| ==> Run(a, bucket[j], d) && Start(bucket[j], d) == Start(bucket[0], d)
    ensures b == MergeRuns(bucket, d)
    ensures 1 <= |b| <= |bucket|
    ensures BlocksAt(a, b, d, Start(bucket[0], d))
    ensures Stacked(b, d)
    ensures SameCover(b, bucket)
    ensures Settled(b, d)
  {
    MergeStart(a, bucket, d);
    b := bucket;
    var i := |b| - 1;
    while i > 0
      invariant 0 <= i && Valid(a)
      invariant MergeState(a, bucket, b, i, d)
    {
      var current := b[i];
      var prev := b[i - 1];
      MergeIteration(a, bucket, b, i, d);
      if Continues(current, prev, d) {
        b := Absorb(b, i, d);
      }
      i := i - 1;
    }
    MergeDone(a, bucket, b, d);
  }

  /** The loop's state holds before the first step. */
  lemma {:induction false} MergeStart(a: CellArray, bucket: seq<CellRect>, d: Direction)
    requires Valid(a) && |bucket| >= 1 && Stacked(bucket, d)
    requires forall j :: 0 <= j < |bucket| ==> Run(a, bucket[j], d) && Start(bucket[j], d) == Start(bucket[0], d)
    ensures MergeState(a, bucket, bucket, |bucket| - 1, d)
  {
    RunsAreBlocks(a, bucket, d);
  }

  /** One step of the loop, merging or not, keeps its state. */
  lemma {:induction false} MergeIteration(a: CellArray, bucket: seq<CellRect>, b: seq<CellRect>, i: int, d: Direction)
    requires Valid(a) && |bucket| >= 1 && 0 < i && MergeState(a, bucket, b, i, d)
    requires forall j :: 0 <= j < |bucket| ==> Run(a, bucket[j], d)
    ensures MergeState(a, bucket, if Continues(b[i], b[i - 1], d) then Absorb(b, i, d) else b, i - 1, d)
  {
    if Continues(b[i], b[i - 1], d) {
      MergeStep(a, bucket, b, i, d);
      assert MergeDown(b, i, d) == MergeDown(Absorb(b, i, d), i - 1, d);
    } else {
      assert MergeDown(b, i, d) == MergeDown(b, i - 1, d);
      assert b[..i - 1] == b[..i][..i - 1];
    }
  }

  /** When the loop ends its state gives the method's promises. */
  lemma {:induction false} MergeDone(a: CellArray, bucket: seq<CellRect>, b: seq<CellRect>, d: Direction)
    requires Valid(a) && |bucket| >= 1 && MergeState(a, bucket, b, 0, d)
    ensures b == MergeRuns(bucket, d)
    ensures 1 <= |b| <= |bucket|
    ensures BlocksAt(a, b, d, Start(bucket[0], d))
    ensures Stacked(b, d)
    ensures SameCover(b, bucket)
    ensures Settled(b, d)
  {
    forall j | 0 <= j < |b| ensures First(b[j], d) <= Last(b[j], d) {
      assert Block(a, b[j], d);
    }
    SettledWhenStacked(b, d);
  }

  lemma RunsAreBlocks(a: CellArray, bucket: seq<CellRect>, d: Direction)
    requires Valid(a) && |bucket| >= 1
    requires forall j :: 0 <= j < |bucket| ==> Run(a, bucket[j], d) && Start(bucket[j], d) == Start(bucket[0], d)
    ensures BlocksAt(a, bucket, d, Start(bucket[0], d))
  {
    forall j | 0 <= j < |bucket| ensures Block(a, bucket[j], d) {
      RunIsBlock(a, bucket[j], d);
    }
  }

  /** Stacked blocks none of which continues its predecessor are settled. */
  lemma {:induction false} SettledWhenStacked(b: seq<CellRect>, d: Direction)
    requires Stacked(b, d)
    requires forall j :: 0 <= j < |b| ==> First(b[j], d) <= Last(b[j], d)
    requires forall k :: 0 <= k < |b| - 1 ==> !Continues(b[k + 1], b[k], d)
    ensures Settled(b, d)
  {
    forall i, j | 0 <= i < |b| && 0 <= j < |b|
      ensures !Continues(b[j], b[i], d)
    {
      if i + 1 < j {
        assert Last(b[i], d) < First(b[i + 1], d) <= Last(b[i + 1], d) < First(b[j], d);
      } else if j <= i {
        assert First(b[j], d) <= Last(b[i], d);
      }
    }
  }

  /** One merge inside the loop keeps the loop's invariants. */
  lemma {:induction false} MergeStep(a: CellArray, bucket: seq<CellRect>, b: seq<CellRect>, i: int, d: Direction)
    requires Valid(a) && 0 < i < |b| <= |bucket| && b[..i] == bucket[..i]
    requires forall j :: 0 <= j < |bucket| ==> Run(a, bucket[j], d)
    requires Continues(b[i], b[i - 1], d)
    requires BlocksAt(a, b, d, Start(bucket[0], d))
    requires Stacked(b, d) && SameCover(b, bucket)
    requires forall k :: i <= k < |b| - 1 ==> !Continues(b[k + 1], b[k], d)
    ensures var next := Absorb(b, i, d);
      && |next| == |b| - 1 && next[..i - 1] == bucket[..i - 1]
      && BlocksAt(a, next, d, Start(bucket[0], d)) && Stacked(next, d) && SameCover(next, bucket)
      && (forall k :: i - 1 <= k < |next| - 1 ==> !Continues(next[k + 1], next[k], d))
  {
    assert b[i - 1] == b[..i][i - 1] == bucket[i - 1];
    RunIsBlock(a, b[i - 1], d);
    var next := Absorb(b, i, d);
    assert next[..i - 1] == b[..i - 1] == bucket[..i - 1];
    AbsorbBlocks(a, b, i, d, Start(bucket[0], d));
    AbsorbStacked(b, i, d);
    forall x, y ensures Covered(next, x, y) <==> Covered(bucket, x, y) {
      AbsorbCovers(b, i, d, x, y);
    }
    forall k | i - 1 <= k < |next| - 1 ensures !Continues(next[k + 1], next[k], d) {
      assert next[k + 1] == b[k + 2];
    }
  }

  /** A one-line run absorbed into the block after it leaves only blocks. */
  lemma {:induction false} AbsorbBlocks(a: CellArray, b: seq<CellRect>, i: int, d: Direction, k: int)
    requires Valid(a) && 0 < i < |b| && Run(a, b[i - 1], d)
    requires Continues(b[i], b[i - 1], d)
    requires BlocksAt(a, b, d, k)
    ensures BlocksAt(a, Absorb(b, i, d), d, k)
  {
    RunIsBlock(a, b[i - 1], d);
    var next := Absorb(b, i, d);
    var merged := next[i - 1];
    assert Block(a, b[i], d) && Block(a, b[i - 1], d);
    assert Block(a, merged, d) by {
      forall v | First(merged, d) <= v <= Last(merged, d)
        ensures MaximalSpan(Line(a, d, v), Span(Start(merged, d), End(merged, d)))
      {
        if v == First(merged, d) {
          assert First(b[i - 1], d) <= v <= Last(b[i - 1], d);
        } else {
          assert First(b[i], d) <= v <= Last(b[i], d);
        }
      }
    }
  }

  /** Absorbing one run into the next keeps the blocks stacked. */
  lemma {:induction false} AbsorbStacked(b: seq<CellRect>, i: int, d: Direction)
    requires 0 < i < |b| && First(b[i - 1], d) <= Last(b[i - 1], d) && Continues(b[i], b[i - 1], d)
    requires Stacked(b, d)
    ensures Stacked(Absorb(b, i, d), d)
  {
    var next := Absorb(b, i, d);
    forall j, j' | 0 <= j < j' < |next|
      ensures Last(next[j], d) < First(next[j'], d)
    {
      if j' == i - 1 {
        assert next[j] == b[j] && Last(b[j], d) < First(b[i - 1], d);
      } else if j == i - 1 {
        assert next[j'] == b[j' + 1];
      } else if j' < i - 1 {
        assert next[j] == b[j] && next[j'] == b[j'];
      } else if j < i - 1 {
        assert next[j] == b[j] && next[j'] == b[j' + 1];
      } else {
        assert next[j] == b[j + 1] && next[j'] == b[j' + 1];
      }
    }
  }

  /**
    The join as a function of the runs: the bucket of the first run's start, merged, then
    the join of the runs that start elsewhere.
  */
  function JoinRuns(rects: seq<CellRect>, d: Direction): seq<CellRect>
    decreases |rects|
  {
    if |rects| == 0 then []
    else
      var k := Start(rects[0], d);
      BucketSplit(rects, d, k);
      assert rects[0] in Bucket(rects, d, k, true);
      MergeRuns(Bucket(rects, d, k, true), d) + JoinRuns(Bucket(rects, d, k, false), d)
  }

  /** The join of the grid in direction `d`. */
  function Joined(a: CellArray, d: Direction): seq<CellRect>
    requires Valid(a)
  {
    JoinRuns(Scan(a, d), d)
  }

  /**
    The buckets in the order their first run appears, each merged, one after another.
    Every joined rectangle starts where some run starts.
  */
  method JoinBuckets(a: CellArray, rects: seq<CellRect>, d: Direction) returns (result: seq<CellRect>)
    requires Valid(a) && Ordered(rects, d)
    requires forall j :: 0 <= j < |rects| ==> Run(a, rects[j], d)
    ensures result == JoinRuns(rects, d)
    ensures |result| <= |rects|
    ensures forall j :: 0 <= j < |result| ==> Block(a, result[j], d)
    ensures forall j :: 0 <= j < |result| ==> HasStart(rects, Start(result[j], d), d)
    ensures PairwiseDisjoint(result)
    ensures forall x, y :: Covered(result, x, y) <==> Covered(rects, x, y)
    ensures Settled(result, d)
    decreases |rects|
  {
    if |rects| == 0 {
      return [];
    }
    var k := Start(rects[0], d);
    var bucket := Bucket(rects, d, k, true);
    var rest := Bucket(rects, d, k, false);
    BucketSplit(rects, d, k);
    BucketOrdered(rects, d, k, true);
    BucketOrdered(rects, d, k, false);
    assert rects[0] in bucket;
    assert Start(bucket[0], d) == k by {
      assert bucket[0] in bucket;
    }
    forall j | 0 <= j < |bucket| ensures Run(a, bucket[j], d) && Start(bucket[j], d) == k {
      assert bucket[j] in bucket;
    }
    forall j | 0 <= j < |rest| ensures Run(a, rest[j], d) {
      assert rest[j] in rest;
    }
    SameStartStacked(a, bucket, d, k);
    var merged := MergeBucket(a, bucket, d);
    var tail := JoinBuckets(a, rest, d);
    result := merged + tail;
    Assemble(a, rects, d, k, merged, tail);
  }

  /** The merged first bucket and the joined rest together keep `JoinBuckets`' promises. */
  lemma {:induction false} Assemble(a: CellArray, rects: seq<CellRect>, d: Direction, k: int, merged: seq<CellRect>, tail: seq<CellRect>)
    requires Valid(a) && |rects| >= 1 && Start(rects[0], d) == k
    requires BlocksAt(a, merged, d, k) && Stacked(merged, d) && Settled(merged, d)
    requires forall x, y :: Covered(merged, x, y) <==> Covered(Bucket(rects, d, k, true), x, y)
    requires forall j :: 0 <= j < |tail| ==> Block(a, tail[j], d)
    requires forall j :: 0 <= j < |tail| ==> HasStart(Bucket(rects, d, k, false), Start(tail[j], d), d)
    requires PairwiseDisjoint(tail) && Settled(tail, d)
    requires forall x, y :: Covered(tail, x, y) <==> Covered(Bucket(rects, d, k, false), x, y)
    ensures var result := merged + tail;
      && (forall j :: 0 <= j < |result| ==> Block(a, result[j], d))
      && (forall j :: 0 <= j < |result| ==> HasStart(rects, Start(result[j], d), d))
      && PairwiseDisjoint(result)
      && (forall x, y :: Covered(result, x, y) <==> Covered(rects, x, y))
      && Settled(result, d)
  {
    var result := merged + tail;
    forall j | 0 <= j < |tail| ensures Start(tail[j], d) != k {
      assert HasStart(Bucket(rects, d, k, false), Start(tail[j], d), d);
      var r :| r in Bucket(rects, d, k, false) && Start(r, d) == Start(tail[j], d);
    }
    forall j | 0 <= j < |result|
      ensures Block(a, result[j], d) && HasStart(rects, Start(result[j], d), d)
    {
      if j < |merged| {
        assert result[j] == merged[j];
        assert rects[0] in rects;
      } else {
        assert result[j] == tail[j - |merged|];
        var r :| r in Bucket(rects, d, k, false) && Start(r, d) == Start(tail[j - |merged|], d);
      }
    }
    forall i, j | 0 <= i < j < |result|
      ensures Disjoint(result[i], result[j])
    {
      if j < |merged| {
        assert result[i] == merged[i] && result[j] == merged[j];
        DisjointAlong(result[i], result[j], d);
      } else if i >= |merged| {
        assert result[i] == tail[i - |merged|] && result[j] == tail[j - |merged|];
      } else {
        assert result[i] == merged[i] && result[j] == tail[j - |merged|];
        BlocksApart(a, result[i], result[j], d);
      }
    }
    forall i, j | 0 <= i < |result| && 0 <= j < |result|
      ensures !(Start(result[j], d) == Start(result[i], d) && Continues(result[j], result[i], d))
    {
      if i < |merged| && j < |merged| {
        assert result[i] == merged[i] && result[j] == merged[j];
      } else if i >= |merged| && j >= |merged| {
        assert result[i] == tail[i - |merged|] && result[j] == tail[j - |merged|];
      }
    }
    forall x, y
      ensures Covered(result, x, y) <==> Covered(rects, x, y)
    {
      CoveredIn(result, x, y);
      CoveredIn(merged, x, y);
      CoveredIn(tail, x, y);
      CoveredIn(rects, x, y);
      CoveredIn(Bucket(rects, d, k, true), x, y);
      CoveredIn(Bucket(rects, d, k, false), x, y);
    }
  }

  /**
    `JoinByRows` or `JoinByColumns`: the scan's runs and the join of them. The joined
    rectangles are blocks, no two share a cell, together they cover exactly the set cells,
    nothing is left to merge, and there are no more of them than runs.
  */
  method JoinBy(a: CellArray, d: Direction) returns (result: seq<CellRect>, rects: seq<CellRect>)
    requires Valid(a)
    ensures rects == Scan(a, d)
    ensures forall i :: 0 <= i < |rects| ==> Run(a, rects[i], d)
    ensures Ordered(rects, d)
    ensures forall x, y :: InGrid(a, x, y) && Cell(a, x, y) ==> Covered(rects, x, y)
    ensures result == Joined(a, d)
    ensures |result| <= |rects|
    ensures forall j :: 0 <= j < |result| ==> Block(a, result[j], d)
    ensures PairwiseDisjoint(result)
    ensures forall x, y :: InGrid(a, x, y) ==> (Covered(result, x, y) <==> Cell(a, x, y))
    ensures Settled(result, d)
  {
    rects := ScanBy(a, d);
    result := JoinBuckets(a, rects, d);
    forall x, y | InGrid(a, x, y) && Covered(result, x, y)
      ensures Cell(a, x, y)
    {
      var j :| 0 <= j < |result| && Contains(result[j], x, y);
      ContainsAlong(result[j], d, x, y);
      CellOnLine(a, d, x, y);
      assert MaximalSpan(Line(a, d, Across(x, y, d)), Span(Start(result[j], d), End(result[j], d)));
    }
  }
}
