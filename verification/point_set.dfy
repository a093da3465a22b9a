/**
  The point setter (`SetValue`) and the two neighbour merges it and the range operations
  use (`TryMergeWithPrevious`, `TryMergeWithNext`).
*/
module PointSet {
  import opened Runs
  import opened RunAlgebra
  import opened Lookup
  import opened Splicing

  /**
    `TryMergeWithPrevious`: run `k` is folded into run `k - 1` when they hold equal
    values. Returns whether it merged, and the list.
  */
  function MergeWithPrevious<T(==)>(runs: seq<Run<T>>, k: int): (r: (bool, seq<Run<T>>))
    requires 0 <= k < |runs|
    ensures r.1 == Join(runs[..k], runs[k..])
    ensures r.0 <==> 0 < k && runs[k - 1].value == runs[k].value
    ensures !r.0 ==> r.1 == runs
  {
    if k == 0 then (false, runs)
    else if runs[k - 1].value != runs[k].value then (false, runs)
    else (true, runs[..k - 1] + [runs[k - 1].(end := runs[k].end)] + runs[k + 1..])
  }

  /**
    `TryMergeWithNext`: run `k` is folded into run `k + 1` when they hold equal values.
    Returns whether it merged, and the list.
  */
  function MergeWithNext<T(==)>(runs: seq<Run<T>>, k: int): (r: (bool, seq<Run<T>>))
    requires 0 <= k < |runs|
    ensures r.1 == Join(runs[..k + 1], runs[k + 1..])
    ensures r.0 <==> k < |runs| - 1 && runs[k + 1].value == runs[k].value
    ensures !r.0 ==> r.1 == runs
  {
    if k == |runs| - 1 then (false, runs)
    else if runs[k + 1].value != runs[k].value then (false, runs)
    else (true, runs[..k] + [runs[k + 1].(start := runs[k].start)] + runs[k + 2..])
  }

  /**
    The body of `SetValue` once run `k`, which holds `index`, is found: nothing happens
    when the value is already there; a one-index run takes the value and merges with its
    neighbours; otherwise a one-index run is split off at the start or the end of run `k`
    (merging with the neighbour on that side), or run `k` is split in three.
  */
  function SetInRun<T(==)>(runs: seq<Run<T>>, k: int, index: int, value: T): seq<Run<T>>
    requires 0 <= k < |runs|
  {
    var item := runs[k];
    var n := Run(value, index, index);
    if value == item.value then runs
    else if item.start == item.end then
      var (merged, r1) := MergeWithPrevious(runs[k := item.(value := value)], k);
      if merged then MergeWithNext(r1, k - 1).1
      else MergeWithNext(r1, k).1
    else if index == item.start then
      MergeWithPrevious(runs[..k] + [n, item.(start := item.start + 1)] + runs[k + 1..], k).1
    else if index == item.end then
      MergeWithNext(runs[..k] + [item.(end := item.end - 1), n] + runs[k + 1..], k + 1).1
    else
      runs[..k] + [item.(end := index - 1), n, Run(item.value, index + 1, item.end)] + runs[k + 1..]
  }

  /** `SetValue`: locate the run holding `index`, then set inside it. */
  function SetValue<T(==)>(runs: seq<Run<T>>, index: int, value: T, hint: int): seq<Run<T>>
  {
    var k := Locate(runs, index, hint);
    if k < 0 then runs else SetInRun(runs, k, index, value)
  }

  /** The one-index case glues the new run to both neighbours. */
  lemma SingleShape<T>(runs: seq<Run<T>>, k: int, index: int, value: T, m: seq<Run<T>>)
    requires 0 <= k < |runs| && runs[k].start == index == runs[k].end && value != runs[k].value
    requires m == [runs[k].(value := value)]
    ensures SetInRun(runs, k, index, value) == Join(Join(runs[..k], m), runs[k + 1..])
  {
    var item := runs[k];
    var n := item.(value := value);
    var a, b := runs[..k], runs[k + 1..];
    var r0 := runs[k := n];
    assert r0 == a + [n] + b;
    assert r0[..k] == a && r0[k..] == [n] + b;
    var (merged, r1) := MergeWithPrevious(r0, k);
    if merged {
      var j := Run(value, a[k - 1].start, n.end);
      assert Join(a, [n]) == a[..k - 1] + [j];
      assert r1 == a[..k - 1] + [j] + b;
      assert r1[..k] == Join(a, [n]) && r1[k..] == b;
    } else {
      assert Join(a, [n] + b) == a + [n] + b;
      assert Join(a, [n]) == a + [n];
      assert r1[..k + 1] == a + [n] && r1[k + 1..] == b;
    }
  }

  /** The start-of-run case merges only on the left. */
  lemma AtStartShape<T>(runs: seq<Run<T>>, k: int, index: int, value: T, m: seq<Run<T>>)
    requires 0 <= k < |runs| && runs[k].start == index < runs[k].end && value != runs[k].value
    requires m == [Run(value, index, index), runs[k].(start := runs[k].start + 1)]
    ensures SetInRun(runs, k, index, value) == Join(runs[..k], m + runs[k + 1..])
  {
    var item := runs[k];
    var c := runs[..k] + m + runs[k + 1..];
    assert c == runs[..k] + [Run(value, index, index), item.(start := item.start + 1)] + runs[k + 1..];
    assert SetInRun(runs, k, index, value) == MergeWithPrevious(c, k).1;
    assert c[..k] == runs[..k] && c[k..] == m + runs[k + 1..];
  }

  /** The end-of-run case merges only on the right. */
  lemma AtEndShape<T>(runs: seq<Run<T>>, k: int, index: int, value: T, m: seq<Run<T>>)
    requires 0 <= k < |runs| && runs[k].start < index == runs[k].end && value != runs[k].value
    requires m == [runs[k].(end := runs[k].end - 1), Run(value, index, index)]
    ensures SetInRun(runs, k, index, value) == Join(runs[..k] + m, runs[k + 1..])
  {
    var item := runs[k];
    var c := runs[..k] + m + runs[k + 1..];
    assert c == runs[..k] + [item.(end := item.end - 1), Run(value, index, index)] + runs[k + 1..];
    assert SetInRun(runs, k, index, value) == MergeWithNext(c, k + 1).1;
    assert c[..k + 2] == runs[..k] + m && c[k + 2..] == runs[k + 1..];
  }

  /** A set strictly inside a run splits it in three with no merge. */
  lemma InsideShape<T>(runs: seq<Run<T>>, k: int, index: int, value: T, m: seq<Run<T>>)
    requires 0 <= k < |runs| && runs[k].start < index < runs[k].end && value != runs[k].value
    requires m == [runs[k].(end := index - 1), Run(value, index, index), Run(runs[k].value, index + 1, runs[k].end)]
    ensures SetInRun(runs, k, index, value) == runs[..k] + m + runs[k + 1..]
  {
  }

  /** A one-index change inside a block of equal values. */
  lemma PointContent<T>(fa: seq<T>, fb: seq<T>, v: T, value: T, a: nat, b: nat)
    ensures (fa + Fill(v, a + 1 + b) + fb)[|fa| + a := value] == fa + (Fill(v, a) + [value] + Fill(v, b)) + fb
  {
  }

  lemma PieceUpdate<T>(f: seq<T>, fa: seq<T>, fm: seq<T>, fb: seq<T>, v: T, value: T, n: nat, a: nat, b: nat)
    requires n == a + 1 + b && f == fa + Fill(v, n) + fb
    requires fm == Fill(v, a) + [value] + Fill(v, b)
    ensures |fa| + a < |f| && f[|fa| + a := value] == fa + fm + fb
  {
    PointContent(fa, fb, v, value, a, b);
  }

  /** The block each case puts in place of run `k` holds the run's values with `index` changed. */
  lemma MiddleBlock<T>(runs: seq<Run<T>>, k: int, index: int, value: T) returns (m: seq<Run<T>>)
    requires 0 <= k < |runs| && Covers(runs[k], index) && value != runs[k].value
    ensures Chain(m, runs[k].start, runs[k].end) && |m| > 0
    ensures Flatten(m) == Fill(runs[k].value, index - runs[k].start) + [value] + Fill(runs[k].value, runs[k].end - index)
    ensures m[0].value == (if index == runs[k].start then value else runs[k].value)
    ensures m[|m| - 1].value == (if index == runs[k].end then value else runs[k].value)
    ensures Compressed(m)
    ensures var item := runs[k];
      if item.start == item.end then m == [item.(value := value)]
      else if index == item.start then m == [Run(value, index, index), item.(start := item.start + 1)]
      else if index == item.end then m == [item.(end := item.end - 1), Run(value, index, index)]
      else m == [item.(end := index - 1), Run(value, index, index), Run(item.value, index + 1, item.end)]
  {
    var item := runs[k];
    var v := item.value;
    var n := Run(value, index, index);
    FlattenSingle(n);
    if item.start == item.end {
      m := [item.(value := value)];
      FlattenSingle(m[0]);
    } else if index == item.start {
      var t := item.(start := item.start + 1);
      m := [n, t];
      FlattenAppend([n], [t]);
      FlattenSingle(t);
    } else if index == item.end {
      var h := item.(end := item.end - 1);
      m := [h, n];
      FlattenAppend([h], [n]);
      FlattenSingle(h);
    } else {
      var h, t := item.(end := index - 1), Run(v, index + 1, item.end);
      m := [h, n, t];
      assert m == [h] + [n] + [t];
      FlattenAppend([h] + [n], [t]);
      FlattenAppend([h], [n]);
      FlattenSingle(h);
      FlattenSingle(t);
    }
  }

  /**
    Setting one index of a chain: the result still tiles [lo, hi], holds the old content
    with only position `index` changed, and stays maximally compressed.
  */
  lemma SetInRunSpec<T>(runs: seq<Run<T>>, lo: int, hi: int, k: int, index: int, value: T)
    requires Chain(runs, lo, hi) && 0 <= k < |runs| && Covers(runs[k], index)
    ensures lo <= index <= hi && |Flatten(runs)| == hi - lo + 1
    ensures Chain(SetInRun(runs, k, index, value), lo, hi)
    ensures Flatten(SetInRun(runs, k, index, value)) == Flatten(runs)[index - lo := value]
    ensures Compressed(runs) ==> Compressed(SetInRun(runs, k, index, value))
  {
    SetInRunContent(runs, lo, hi, k, index, value);
    if Compressed(runs) && value != runs[k].value {
      var m := MiddleBlock(runs, k, index, value);
      SetInRunCompressed(runs, k, index, value, m);
    }
  }

  lemma SetInRunContent<T>(runs: seq<Run<T>>, lo: int, hi: int, k: int, index: int, value: T)
    requires Chain(runs, lo, hi) && 0 <= k < |runs| && Covers(runs[k], index)
    ensures lo <= index <= hi && |Flatten(runs)| == hi - lo + 1
    ensures Chain(SetInRun(runs, k, index, value), lo, hi)
    ensures Flatten(SetInRun(runs, k, index, value)) == Flatten(runs)[index - lo := value]
  {
    ChainLength(runs, lo, hi);
    ValueAt(runs, lo, hi, k, index);
    if value != runs[k].value {
      AroundRun(runs, lo, hi, k);
      var m := MiddleBlock(runs, k, index, value);
      SetInRunGlue(runs, lo, hi, k, index, value, m);
      ChangedPieces(runs, lo, hi, k, index, value, m);
    }
  }

  /** The three pieces around the changed run hold the old content with `index` changed. */
  lemma ChangedPieces<T>(runs: seq<Run<T>>, lo: int, hi: int, k: int, index: int, value: T, m: seq<Run<T>>)
    requires Chain(runs, lo, hi) && 0 <= k < |runs| && Covers(runs[k], index)
    requires Flatten(m) == Fill(runs[k].value, index - runs[k].start) + [value] + Fill(runs[k].value, runs[k].end - index)
    ensures 0 <= index - lo < |Flatten(runs)|
    ensures Pieces(runs[..k], m, runs[k + 1..]) == Flatten(runs)[index - lo := value]
  {
    var item := runs[k];
    ChainLength(runs, lo, hi);
    AroundRun(runs, lo, hi, k);
    var fa, fb := Flatten(runs[..k]), Flatten(runs[k + 1..]);
    var a, b := index - item.start, item.end - index;
    PieceUpdate(Flatten(runs), fa, Flatten(m), fb, item.value, value, Size(item), a, b);
  }

  /** Each case glues the new middle block between the runs before and after run `k`. */
  lemma SetInRunGlue<T>(runs: seq<Run<T>>, lo: int, hi: int, k: int, index: int, value: T, m: seq<Run<T>>)
    requires 0 <= k < |runs| && Covers(runs[k], index) && value != runs[k].value
    requires Adjacent(runs[..k], m, runs[k + 1..], lo, runs[k].start, runs[k].end, hi)
    requires var item := runs[k];
      if item.start == item.end then m == [item.(value := value)]
      else if index == item.start then m == [Run(value, index, index), item.(start := item.start + 1)]
      else if index == item.end then m == [item.(end := item.end - 1), Run(value, index, index)]
      else m == [item.(end := index - 1), Run(value, index, index), Run(item.value, index + 1, item.end)]
    ensures Chain(SetInRun(runs, k, index, value), lo, hi)
    ensures Flatten(SetInRun(runs, k, index, value)) == Pieces(runs[..k], m, runs[k + 1..])
  {
    var item := runs[k];
    var a, b := runs[..k], runs[k + 1..];
    if item.start == item.end {
      SingleShape(runs, k, index, value, m);
      JoinBoth(a, m, b, lo, item.start, item.end, hi);
    } else if index == item.start {
      AtStartShape(runs, k, index, value, m);
      JoinLeft(a, m, b, lo, item.start, item.end, hi);
    } else if index == item.end {
      AtEndShape(runs, k, index, value, m);
      JoinRight(a, m, b, lo, item.start, item.end, hi);
    } else {
      InsideShape(runs, k, index, value, m);
      JoinNone(a, m, b, lo, item.start, item.end, hi);
    }
  }

  /** Each case keeps maximal compression: the new value differs from the run it lands in. */
  lemma SetInRunCompressed<T>(runs: seq<Run<T>>, k: int, index: int, value: T, m: seq<Run<T>>)
    requires 0 <= k < |runs| && Covers(runs[k], index) && value != runs[k].value && Compressed(runs)
    requires Compressed(m) && |m| > 0
    requires m[0].value == (if index == runs[k].start then value else runs[k].value)
    requires m[|m| - 1].value == (if index == runs[k].end then value else runs[k].value)
    requires var item := runs[k];
      if item.start == item.end then m == [item.(value := value)]
      else if index == item.start then m == [Run(value, index, index), item.(start := item.start + 1)]
      else if index == item.end then m == [item.(end := item.end - 1), Run(value, index, index)]
      else m == [item.(end := index - 1), Run(value, index, index), Run(item.value, index + 1, item.end)]
    ensures Compressed(SetInRun(runs, k, index, value))
  {
    var item := runs[k];
    var a, b := runs[..k], runs[k + 1..];
    Neighbours(runs, k);
    if item.start == item.end {
      SingleShape(runs, k, index, value, m);
      JoinCompressed(a, m);
      JoinCompressed(Join(a, m), b);
    } else if index == item.start {
      AtStartShape(runs, k, index, value, m);
      CompressedAppend(m, b);
      JoinCompressed(a, m + b);
    } else if index == item.end {
      AtEndShape(runs, k, index, value, m);
      CompressedAppend(a, m);
      JoinCompressed(a + m, b);
    } else {
      InsideShape(runs, k, index, value, m);
      CompressedAppend(a, m);
      CompressedAppend(a + m, b);
    }
  }

  /** In a compressed list the runs around run `k` are compressed and differ from it at the seams. */
  lemma Neighbours<T>(runs: seq<Run<T>>, k: int)
    requires Compressed(runs) && 0 <= k < |runs|
    ensures Compressed(runs[..k]) && Compressed(runs[k + 1..])
    ensures k > 0 ==> runs[..k][k - 1].value != runs[k].value
    ensures k + 1 < |runs| ==> runs[k + 1..][0].value != runs[k].value
  {
    var b := runs[k + 1..];
    forall q | 0 < q < |b|
      ensures b[q - 1].value != b[q].value
    {
      assert b[q - 1] == runs[k + q] && b[q] == runs[k + q + 1];
    }
  }

  /**
    The point setter: on a collection tiling [0, hi], setting `index` changes the content
    at `index` alone, whichever run the cursor names, and keeps the representation
    invariants. Setting the value already there leaves the runs untouched.
  */
  lemma SetValueSpec<T>(runs: seq<Run<T>>, hi: int, index: int, value: T, hint: int)
    requires Chain(runs, 0, hi) && 0 <= index <= hi
    ensures |Flatten(runs)| == hi + 1
    ensures Chain(SetValue(runs, index, value, hint), 0, hi)
    ensures Flatten(SetValue(runs, index, value, hint)) == Flatten(runs)[index := value]
    ensures Compressed(runs) ==> Compressed(SetValue(runs, index, value, hint))
    ensures Flatten(runs)[index] == value ==> SetValue(runs, index, value, hint) == runs
  {
    LocateValue(runs, hi, index, hint);
    SetInRunSpec(runs, 0, hi, Locate(runs, index, hint), index, value);
  }
}
