/**
  Opening a hole in the run list: `CutIndexRange` removes the window [start, end],
  trimming the runs that straddle its edges, and `InsertIndexRange` splits the run at
  an index and shifts everything from there forward. Both return the position at which
  the new runs go.
*/
module Cutting {
  import opened Runs
  import opened RunAlgebra
  import opened Lookup

  /** The runs before index `i`, the run `k` holding it trimmed to end at `i - 1`. */
  function Before<T>(runs: seq<Run<T>>, k: int, i: int): (r: seq<Run<T>>)
    requires 0 <= k < |runs|
    ensures |r| == k || |r| == k + 1
  {
    runs[..k] + (if runs[k].start < i then [runs[k].(end := i - 1)] else [])
  }

  /** The runs after index `j`, the run `k` holding it trimmed to start at `j + 1`. */
  function After<T>(runs: seq<Run<T>>, k: int, j: int): (r: seq<Run<T>>)
    requires 0 <= k < |runs|
  {
    (if runs[k].end > j then [runs[k].(start := j + 1)] else []) + runs[k + 1..]
  }

  lemma BeforeChain<T>(runs: seq<Run<T>>, lo: int, hi: int, k: int, i: int)
    requires Chain(runs, lo, hi) && 0 <= k < |runs| && runs[k].start <= i <= runs[k].end + 1
    ensures Chain(Before(runs, k, i), lo, i - 1)
  {
    ChainBefore(runs, lo, hi, k);
    if runs[k].start < i {
      ChainAppend(runs[..k], [runs[k].(end := i - 1)], lo, runs[k].start, i - 1);
    }
  }

  lemma {:induction false} BeforeFlatten<T>(runs: seq<Run<T>>, lo: int, hi: int, k: int, i: int)
    requires Chain(runs, lo, hi) && 0 <= k < |runs| && runs[k].start <= i <= runs[k].end + 1
    ensures lo <= i && i - lo <= |Flatten(runs)|
    ensures Flatten(Before(runs, k, i)) == Flatten(runs)[..i - lo]
  {
    var f := Flatten(runs);
    var init := runs[..k];
    PrefixAt(runs, lo, hi, k);
    RunSlice(runs, lo, hi, k, runs[k].start, i);
    var s := runs[k].start - lo;
    if runs[k].start < i {
      var h := runs[k].(end := i - 1);
      FillBehind(init, h, Before(runs, k, i), f, s, i - lo, runs[k].value, i - runs[k].start);
    } else {
      assert Before(runs, k, i) == init;
    }
  }

  /** A list followed by one run flattens to the prefix that holds the list's content and then the run's block. */
  lemma FillBehind<T>(init: seq<Run<T>>, h: Run<T>, c: seq<Run<T>>, f: seq<T>, s: int, b: int, v: T, n: nat)
    requires c == init + [h] && 0 <= s <= b <= |f| && h.value == v && Size(h) == n && n == b - s
    requires Flatten(init) == f[..s] && f[s..b] == Fill(v, n)
    ensures Flatten(c) == f[..b]
  {
    FlattenAppend(init, [h]);
    FlattenSingle(h);
    assert f[..b] == f[..s] + f[s..b];
  }

  lemma BeforeCompressed<T>(runs: seq<Run<T>>, k: int, i: int)
    requires Compressed(runs) && 0 <= k < |runs|
    ensures Compressed(Before(runs, k, i))
    ensures |Before(runs, k, i)| > 0 ==> Before(runs, k, i)[|Before(runs, k, i)| - 1].value == runs[|Before(runs, k, i)| - 1].value
  {
  }

  lemma AfterChain<T>(runs: seq<Run<T>>, lo: int, hi: int, k: int, j: int)
    requires Chain(runs, lo, hi) && 0 <= k < |runs| && runs[k].start - 1 <= j <= runs[k].end
    ensures Chain(After(runs, k, j), j + 1, hi)
  {
    var rest := runs[k + 1..];
    ChainAfter(runs, lo, hi, k);
    if runs[k].end > j {
      var h := runs[k].(start := j + 1);
      assert After(runs, k, j) == [h] + rest;
      WholeChain(h, rest, j + 1, hi);
    } else {
      assert After(runs, k, j) == rest;
    }
  }

  lemma {:induction false} AfterFlatten<T>(runs: seq<Run<T>>, lo: int, hi: int, k: int, j: int)
    requires Chain(runs, lo, hi) && 0 <= k < |runs| && runs[k].start - 1 <= j <= runs[k].end
    ensures lo <= j + 1 && j + 1 - lo <= |Flatten(runs)|
    ensures Flatten(After(runs, k, j)) == Flatten(runs)[j + 1 - lo..]
  {
    var rest := runs[k + 1..];
    SuffixAfter(runs, lo, hi, k);
    if runs[k].end > j {
      assert After(runs, k, j) == [runs[k].(start := j + 1)] + rest;
      TrimmedFront(runs, lo, hi, k, j);
    } else {
      assert After(runs, k, j) == rest;
      DropAt(Flatten(runs), runs[k].end + 1 - lo, j + 1 - lo, Flatten(rest));
    }
  }

  /** Run `k` trimmed to start at `j + 1`, then the runs after it, flatten to the content from `j + 1`. */
  lemma {:induction false} TrimmedFront<T>(runs: seq<Run<T>>, lo: int, hi: int, k: int, j: int)
    requires Chain(runs, lo, hi) && 0 <= k < |runs| && runs[k].start - 1 <= j < runs[k].end
    ensures lo <= j + 1 && j + 1 - lo <= |Flatten(runs)|
    ensures Flatten([runs[k].(start := j + 1)] + runs[k + 1..]) == Flatten(runs)[j + 1 - lo..]
  {
    SuffixAfter(runs, lo, hi, k);
    RunSlice(runs, lo, hi, k, j + 1, runs[k].end + 1);
    var h := runs[k].(start := j + 1);
    FillInFront(h, runs[k + 1..], [h] + runs[k + 1..], Flatten(runs), j + 1 - lo, runs[k].end + 1 - lo,
      runs[k].value, runs[k].end + 1 - (j + 1));
  }

  /** A suffix named by an index equal to `m` is the suffix at `m`. */
  lemma DropAt<T>(f: seq<T>, m: int, a: int, g: seq<T>)
    requires 0 <= m <= |f| && m == a && g == f[m..]
    ensures g == f[a..]
  {
  }

  /** A run in front of a list flattens to the slice that holds its block and then the list's content. */
  lemma FillInFront<T>(h: Run<T>, rest: seq<Run<T>>, c: seq<Run<T>>, f: seq<T>, a: int, m: int, v: T, n: nat)
    requires c == [h] + rest && 0 <= a <= m <= |f| && h.value == v && Size(h) == n && n == m - a
    requires f[a..m] == Fill(v, n) && Flatten(rest) == f[m..]
    ensures Flatten(c) == f[a..]
  {
    FlattenAppend([h], rest);
    FlattenSingle(h);
    assert f[a..] == f[a..m] + f[m..];
  }

  lemma AfterCompressed<T>(runs: seq<Run<T>>, k: int, j: int)
    requires Compressed(runs) && 0 <= k < |runs|
    ensures Compressed(After(runs, k, j))
    ensures |After(runs, k, j)| > 0 && runs[k].end > j ==> After(runs, k, j)[0].value == runs[k].value
    ensures |After(runs, k, j)| > 0 && runs[k].end <= j ==> After(runs, k, j)[0].value == runs[k + 1].value
  {
    var a := After(runs, k, j);
    if runs[k].end > j {
      forall q | 0 < q < |a|
        ensures a[q - 1].value != a[q].value
      {
        assert a[q - 1].value == runs[k + q - 1].value && a[q] == runs[k + q];
      }
    }
  }

  /**
    `CutIndexRangeFromItem`: the window lies inside run `k`. The run is removed when the
    window is all of it, cut from the left or right when the window touches one of its
    ends, and split in two around the window otherwise.
  */
  function CutFromItem<T>(runs: seq<Run<T>>, k: int, start: int, end: int): seq<Run<T>>
    requires 0 <= k < |runs|
  {
    var item := runs[k];
    if item.start == start then
      if item.end == end then runs[..k] + runs[k + 1..]
      else runs[k := item.(start := end + 1)]
    else if item.end > end then
      runs[..k] + [item.(end := start - 1), Run(item.value, end + 1, item.end)] + runs[k + 1..]
    else
      runs[..k] + [item.(end := start - 1)] + runs[k + 1..]
  }

  /** The position `CutIndexRangeFromItem` returns. */
  function CutFromItemAt<T>(runs: seq<Run<T>>, k: int, start: int): int
    requires 0 <= k < |runs|
  {
    if runs[k].start == start then k else k + 1
  }

  /**
    `CutIndexRange`: locate the runs holding both window ends (the second lookup starts
    from the first one's run, as the cursor does), then trim the straddling runs and drop
    the ones in between. Returns the new list and the position where the window was.
  */
  function Cut<T>(runs: seq<Run<T>>, start: int, end: int, hint: int): (seq<Run<T>>, int)
  {
    var k1 := Locate(runs, start, hint);
    var k2 := Locate(runs, end, k1);
    if k1 < 0 || k2 < 0 then (runs, -1)
    else if k1 == k2 then (CutFromItem(runs, k1, start, end), CutFromItemAt(runs, k1, start))
    else
      var first := if runs[k1].start < start then k1 + 1 else k1;
      (Before(runs, k1, start) + After(runs, k2, end), first)
  }

  /** Cutting inside one run removes the same as cutting between `Before` and `After`. */
  lemma CutFromItemShape<T>(runs: seq<Run<T>>, k: int, start: int, end: int)
    requires 0 <= k < |runs| && runs[k].start <= start <= end <= runs[k].end
    ensures CutFromItem(runs, k, start, end) == Before(runs, k, start) + After(runs, k, end)
    ensures CutFromItemAt(runs, k, start) == |Before(runs, k, start)|
  {
    var item := runs[k];
    if item.start == start {
      if item.end == end {
        assert Before(runs, k, start) == runs[..k];
        assert After(runs, k, end) == runs[k + 1..];
      } else {
        assert runs[k := item.(start := end + 1)] == runs[..k] + [item.(start := end + 1)] + runs[k + 1..];
      }
    } else if item.end > end {
      assert Run(item.value, end + 1, item.end) == item.(start := end + 1);
    }
  }

  /**
    Cutting [start, end] out of a chain over [lo, hi] leaves the part before the window
    and the part after it, split at the returned position, with the matching content.
  */
  lemma {:induction false} CutSpec<T>(runs: seq<Run<T>>, lo: int, hi: int, start: int, end: int, hint: int)
    returns (k1: int, k2: int)
    requires Chain(runs, lo, hi) && lo <= start <= end <= hi
    ensures 0 <= k1 < |runs| && 0 <= k2 < |runs| && Covers(runs[k1], start) && Covers(runs[k2], end)
    ensures Cut(runs, start, end, hint) == (Before(runs, k1, start) + After(runs, k2, end), |Before(runs, k1, start)|)
  {
    k1 := Locate(runs, start, hint);
    LocateIgnoresHint(runs, lo, hi, start, hint);
    k2 := Locate(runs, end, k1);
    LocateIgnoresHint(runs, lo, hi, end, k1);
    if k1 == k2 {
      CutFromItemShape(runs, k1, start, end);
    }
  }

  /** The two halves `x` and `y` of a cut, as chains with their content. */
  lemma {:induction false} CutHalves<T>(runs: seq<Run<T>>, hi: int, k1: int, k2: int, start: int, end: int,
                                        x: seq<Run<T>>, y: seq<Run<T>>)
    requires Chain(runs, 0, hi) && 0 <= k1 < |runs| && 0 <= k2 < |runs|
    requires Covers(runs[k1], start) && Covers(runs[k2], end) && start <= end
    requires x == Before(runs, k1, start) && y == After(runs, k2, end)
    ensures Chain(x, 0, start - 1)
    ensures Chain(y, end + 1, hi)
    ensures |Flatten(runs)| == hi + 1 && 0 <= start && end <= hi
    ensures Flatten(x) == Flatten(runs)[..start]
    ensures Flatten(y) == Flatten(runs)[end + 1..]
    ensures Compressed(runs) ==> Compressed(x) && Compressed(y)
  {
    ChainLength(runs, 0, hi);
    BeforeChain(runs, 0, hi, k1, start);
    AfterChain(runs, 0, hi, k2, end);
    BeforeFlatten(runs, 0, hi, k1, start);
    AfterFlatten(runs, 0, hi, k2, end);
    if Compressed(runs) {
      BeforeCompressed(runs, k1, start);
      AfterCompressed(runs, k2, end);
    }
  }

  /**
    `InsertIndexRange`: split the run holding `index` so that a run starts there, then
    shift every run from there on forward by `count`, dropping and clipping at the fixed
    `length`. Returns the new list and the position of the hole.
  */
  function OpenGap<T>(runs: seq<Run<T>>, index: int, count: int, length: int, hint: int): (seq<Run<T>>, int)
  {
    var k := Locate(runs, index, hint);
    if k < 0 then (runs, -1)
    else if runs[k].start < index then
      var item := runs[k];
      var split := runs[..k] + [item.(end := index - 1), Run(item.value, index, item.end)] + runs[k + 1..];
      (split[..k + 1] + ShiftTail(split[k + 1..], count, length), k + 1)
    else
      (runs[..k] + ShiftTail(runs[k..], count, length), k)
  }

  /** The gap opened at `index` separates the runs before it from the shifted tail. */
  lemma OpenGapShape<T>(runs: seq<Run<T>>, index: int, count: int, length: int, hint: int)
    requires 0 <= Locate(runs, index, hint) < |runs|
    ensures var k := Locate(runs, index, hint);
      OpenGap(runs, index, count, length, hint).0
        == Before(runs, k, index) + ShiftTail(After(runs, k, index - 1), count, length)
      && OpenGap(runs, index, count, length, hint).1 == |Before(runs, k, index)|
  {
    var k := Locate(runs, index, hint);
    var item := runs[k];
    if item.start < index {
      var split := runs[..k] + [item.(end := index - 1), Run(item.value, index, item.end)] + runs[k + 1..];
      assert split[..k + 1] == Before(runs, k, index);
      assert split[k + 1..] == After(runs, k, index - 1);
    } else {
      assert runs[..k] == Before(runs, k, index);
      assert runs[k..] == After(runs, k, index - 1);
    }
  }

  /** The shifted tail: the content from `index` on, moved forward by `count` and cut at `length`. */
  lemma OpenGapTail<T>(runs: seq<Run<T>>, lo: int, k: int, index: int, count: int, length: int)
    requires Chain(runs, lo, length - 1) && 0 <= k < |runs| && Covers(runs[k], index)
    requires 0 <= count && index + count <= length
    ensures |Flatten(runs)| == length - lo && lo <= index
    ensures Chain(ShiftTail(After(runs, k, index - 1), count, length), index + count, length - 1)
    ensures Flatten(ShiftTail(After(runs, k, index - 1), count, length))
      == Flatten(runs)[index - lo..][..length - index - count]
  {
    ChainLength(runs, lo, length - 1);
    AfterChain(runs, lo, length - 1, k, index - 1);
    AfterFlatten(runs, lo, length - 1, k, index - 1);
    ShiftTailSpec(After(runs, k, index - 1), index, length, count);
  }
}
