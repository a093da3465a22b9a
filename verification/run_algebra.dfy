/**
  Building blocks the collection's mutations are made of: the boundary merge of two
  run lists, moving a block of runs to an absolute offset (optionally converting its
  values), the forward shift of a tail that drops what falls off the fixed length,
  and clipping the runs of a window for `GetRange`.
*/
module RunAlgebra {
  import opened Errors
  import opened Runs

  /**
    Concatenation with the merge rule applied at the seam: when the last run of `x` and
    the first run of `y` hold equal values they become one run spanning both.
  */
  function Join<T(==)>(x: seq<Run<T>>, y: seq<Run<T>>): (r: seq<Run<T>>)
    ensures |x| <= |r| <= |x| + |y| && |y| <= |r|
  {
    if |x| > 0 && |y| > 0 && x[|x| - 1].value == y[0].value then
      x[..|x| - 1] + [Run(y[0].value, x[|x| - 1].start, y[0].end)] + y[1..]
    else
      x + y
  }

  /** Joining two adjacent chains chains over their union and flattens to the concatenation. */
  lemma JoinChain<T>(x: seq<Run<T>>, y: seq<Run<T>>, lo: int, mid: int, hi: int)
    requires Chain(x, lo, mid - 1) && Chain(y, mid, hi)
    ensures Chain(Join(x, y), lo, hi)
    ensures Flatten(Join(x, y)) == Flatten(x) + Flatten(y)
  {
    if |x| > 0 && |y| > 0 && x[|x| - 1].value == y[0].value {
      JoinMerged(x, y, lo, mid, hi);
    } else {
      ChainAppend(x, y, lo, mid, hi);
      FlattenAppend(x, y);
    }
  }

  lemma JoinMerged<T>(x: seq<Run<T>>, y: seq<Run<T>>, lo: int, mid: int, hi: int)
    requires Chain(x, lo, mid - 1) && Chain(y, mid, hi)
    requires |x| > 0 && |y| > 0 && x[|x| - 1].value == y[0].value
    ensures Chain(Join(x, y), lo, hi)
    ensures Flatten(Join(x, y)) == Flatten(x) + Flatten(y)
  {
    var n := |x| - 1;
    var a, b := x[n], y[0];
    var x0, y1 := x[..n], y[1..];
    assert x == x0 + [a];
    assert y == [b] + y1;
    assert b.start == mid;
    var j := x0 + [Run(b.value, a.start, b.end)] + y1;
    assert Join(x, y) == j;
    MergedChain(x0, a, b, y1, lo, hi);
    MergedFlatten(x0, a, b, y1);
  }

  lemma MergedChain<T>(x0: seq<Run<T>>, a: Run<T>, b: Run<T>, y1: seq<Run<T>>, lo: int, hi: int)
    requires Chain(x0 + [a], lo, b.start - 1) && Chain([b] + y1, b.start, hi)
    ensures Chain(x0 + [Run(b.value, a.start, b.end)] + y1, lo, hi)
  {
    var m := Run(b.value, a.start, b.end);
    ChainSplit(x0 + [a], lo, b.start - 1, |x0|);
    assert (x0 + [a])[..|x0|] == x0;
    ChainTail([b] + y1, b.start, hi);
    assert ([b] + y1)[1..] == y1;
    ChainAppend(x0, [m], lo, a.start, b.end);
    ChainAppend(x0 + [m], y1, lo, b.end + 1, hi);
  }

  lemma MergedFlatten<T>(x0: seq<Run<T>>, a: Run<T>, b: Run<T>, y1: seq<Run<T>>)
    requires a.value == b.value && a.start <= a.end && a.end + 1 == b.start && b.start <= b.end
    ensures Flatten(x0 + [Run(b.value, a.start, b.end)] + y1) == Flatten(x0 + [a]) + Flatten([b] + y1)
  {
    var m := Run(b.value, a.start, b.end);
    var fx, fy := Flatten(x0), Flatten(y1);
    var fa, fb := Fill(b.value, Size(a)), Fill(b.value, Size(b));
    assert Flatten(x0 + [m] + y1) == fx + (fa + fb) + fy by {
      FlattenAppend(x0 + [m], y1);
      FlattenAppend(x0, [m]);
      FlattenSingle(m);
      FillAppend(b.value, Size(a), Size(b));
    }
    assert Flatten(x0 + [a]) == fx + fa by {
      FlattenAppend(x0, [a]);
      FlattenSingle(a);
    }
    assert Flatten([b] + y1) == fb + fy by {
      FlattenAppend([b], y1);
      FlattenSingle(b);
    }
    assert fx + (fa + fb) + fy == (fx + fa) + (fb + fy);
  }

  /** The seam merge keeps maximal compression: both sides were compressed, and the seam is resolved. */
  lemma JoinCompressed<T>(x: seq<Run<T>>, y: seq<Run<T>>)
    requires Compressed(x) && Compressed(y)
    ensures Compressed(Join(x, y))
  {
    var j := Join(x, y);
    if |x| > 0 && |y| > 0 && x[|x| - 1].value == y[0].value {
      var n := |x| - 1;
      forall k | 0 < k < |j|
        ensures j[k - 1].value != j[k].value
      {
        if k < n {
          assert j[k - 1] == x[k - 1] && j[k] == x[k];
        } else if k == n {
          assert j[k - 1] == x[k - 1];
        } else if k == n + 1 {
          assert j[k] == y[1];
        } else {
          assert j[k - 1] == y[k - 1 - n] && j[k] == y[k - n];
        }
      }
    } else {
      forall k | 0 < k < |j|
        ensures j[k - 1].value != j[k].value
      {
        if k < |x| {
          assert j[k - 1] == x[k - 1] && j[k] == x[k];
        } else if k > |x| {
          assert j[k - 1] == y[k - 1 - |x|] && j[k] == y[k - |x|];
        }
      }
    }
  }

  /** A seam inside a non-empty block does not reach the runs before it. */
  lemma JoinPrefix<T>(p: seq<Run<T>>, x: seq<Run<T>>, y: seq<Run<T>>)
    requires |x| > 0
    ensures Join(p + x, y) == p + Join(x, y)
    ensures |Join(x, y)| > 0
  {
    var px := p + x;
    assert px[|px| - 1] == x[|x| - 1];
    if |y| > 0 && x[|x| - 1].value == y[0].value {
      assert px[..|px| - 1] == p + x[..|x| - 1];
    }
  }

  function Convert<T>(converter: Option<T -> T>, v: T): T {
    match converter
    case None => v
    case Some(f) => f(v)
  }

  function ConvertAll<T>(converter: Option<T -> T>, s: seq<T>): (r: seq<T>)
    ensures |r| == |s|
    ensures converter.None? ==> r == s
  {
    seq(|s|, i requires 0 <= i < |s| => Convert(converter, s[i]))
  }

  /** Neighbouring runs of `runs` stay distinct once converted. */
  predicate DistinctUnder<T(==)>(runs: seq<Run<T>>, converter: Option<T -> T>) {
    forall k :: 0 < k < |runs| ==> Convert(converter, runs[k - 1].value) != Convert(converter, runs[k].value)
  }

  /** Without a converter, distinctness under conversion is plain compression. */
  lemma CompressedDistinct<T>(runs: seq<Run<T>>)
    requires Compressed(runs)
    ensures DistinctUnder(runs, None)
  {
  }

  /**
    The runs of a block moved to absolute offset `offset`, each value passed through the
    converter when there is one (the source's copy loops in `SetRangeCore` and
    `InsertRangeCore`, and the in-place shifts of `Remove` without a converter).
  */
  function Place<T>(runs: seq<Run<T>>, offset: int, converter: Option<T -> T>): (r: seq<Run<T>>)
    ensures |r| == |runs|
  {
    seq(|runs|, k requires 0 <= k < |runs| =>
      Run(Convert(converter, runs[k].value), runs[k].start + offset, runs[k].end + offset))
  }

  lemma {:induction false} FlattenPlace<T>(runs: seq<Run<T>>, offset: int, converter: Option<T -> T>)
    ensures Flatten(Place(runs, offset, converter)) == ConvertAll(converter, Flatten(runs))
    decreases |runs|
  {
    var p := Place(runs, offset, converter);
    if |runs| > 0 {
      assert p[1..] == Place(runs[1..], offset, converter);
      FlattenPlace(runs[1..], offset, converter);
      var head := Fill(runs[0].value, Size(runs[0]));
      var f := Flatten(runs);
      assert f == head + Flatten(runs[1..]);
      assert Flatten(p) == Fill(p[0].value, Size(p[0])) + Flatten(p[1..]);
      assert ConvertAll(converter, f) == ConvertAll(converter, head) + ConvertAll(converter, Flatten(runs[1..]));
    }
  }

  lemma PlaceChain<T>(runs: seq<Run<T>>, lo: int, hi: int, offset: int, converter: Option<T -> T>)
    requires Chain(runs, lo, hi)
    ensures Chain(Place(runs, offset, converter), lo + offset, hi + offset)
  {
  }

  lemma PlaceCompressed<T>(runs: seq<Run<T>>, offset: int, converter: Option<T -> T>)
    requires DistinctUnder(runs, converter)
    ensures Compressed(Place(runs, offset, converter))
  {
  }

  /** Moving by an offset alone keeps values, so it keeps compression. */
  lemma ShiftCompressed<T>(runs: seq<Run<T>>, offset: int)
    requires Compressed(runs)
    ensures Compressed(Place(runs, offset, None))
  {
  }

  /** The last run stretched so that the chain ends `extra` indices later. */
  function ExtendLast<T>(runs: seq<Run<T>>, newEnd: int): seq<Run<T>>
    requires |runs| > 0
  {
    runs[|runs| - 1 := runs[|runs| - 1].(end := newEnd)]
  }

  lemma {:induction false} ExtendLastSpec<T>(runs: seq<Run<T>>, lo: int, hi: int, extra: nat, newEnd: int)
    requires Chain(runs, lo, hi) && |runs| > 0 && newEnd == hi + extra
    ensures Chain(ExtendLast(runs, newEnd), lo, newEnd)
    ensures Flatten(ExtendLast(runs, newEnd)) == Flatten(runs) + Fill(runs[|runs| - 1].value, extra)
  {
    ExtendLastChain(runs, lo, hi, newEnd);
    ExtendLastFlatten(runs, hi, extra, newEnd);
  }

  lemma ExtendLastChain<T>(runs: seq<Run<T>>, lo: int, hi: int, newEnd: int)
    requires Chain(runs, lo, hi) && |runs| > 0 && hi <= newEnd
    ensures Chain(ExtendLast(runs, newEnd), lo, newEnd)
  {
  }

  lemma {:induction false} ExtendLastFlatten<T>(runs: seq<Run<T>>, hi: int, extra: nat, newEnd: int)
    requires |runs| > 0 && runs[|runs| - 1].start <= runs[|runs| - 1].end == hi && newEnd == hi + extra
    ensures Flatten(ExtendLast(runs, newEnd)) == Flatten(runs) + Fill(runs[|runs| - 1].value, extra)
  {
    var n := |runs| - 1;
    var last := runs[n];
    var grown := last.(end := newEnd);
    var init := runs[..n];
    assert runs == init + [last];
    assert ExtendLast(runs, newEnd) == init + [grown];
    FlattenAppend(init, [last]);
    FlattenAppend(init, [grown]);
    FlattenSingle(last);
    FlattenSingle(grown);
    FillAppend(last.value, Size(last), extra);
  }

  lemma ExtendLastCompressed<T>(runs: seq<Run<T>>, newEnd: int)
    requires Compressed(runs) && |runs| > 0
    ensures Compressed(ExtendLast(runs, newEnd))
  {
  }

  /** The last value of a chain's content is its last run's value. */
  lemma LastValue<T>(runs: seq<Run<T>>, lo: int, hi: int)
    requires Chain(runs, lo, hi) && |runs| > 0
    ensures |Flatten(runs)| == hi - lo + 1 > 0
    ensures Flatten(runs)[hi - lo] == runs[|runs| - 1].value
  {
    ChainLength(runs, lo, hi);
    ValueAt(runs, lo, hi, |runs| - 1, hi);
  }

  function Min(a: int, b: int): int { if a <= b then a else b }

  function Max(a: int, b: int): int { if a >= b then a else b }

  /**
    The shift loop of `InsertIndexRange`: every run of a tail moves forward by `count`;
    a run whose new start would reach `length` is dropped, and a run that would cross
    the end is cut at `length - 1`.
  */
  function ShiftTail<T>(runs: seq<Run<T>>, count: int, length: int): seq<Run<T>>
    decreases |runs|
  {
    if |runs| == 0 then []
    else
      (if runs[0].start + count >= length then []
       else [Run(runs[0].value, runs[0].start + count, Min(runs[0].end + count, length - 1))])
      + ShiftTail(runs[1..], count, length)
  }

  /** Once the first run of a tail falls off the end, every later one does too. */
  lemma {:induction false} ShiftTailDropsAll<T>(runs: seq<Run<T>>, lo: int, hi: int, count: int, length: int)
    requires Chain(runs, lo, hi) && lo + count >= length
    ensures ShiftTail(runs, count, length) == []
    decreases |runs|
  {
    if |runs| > 0 {
      ChainTail(runs, lo, hi);
      ShiftTailDropsAll(runs[1..], runs[0].end + 1, hi, count, length);
    }
  }

  /** The shifted tail tiles [lo + count, length - 1] and holds the tail's first `length - lo - count` values. */
  lemma ShiftTailSpec<T>(runs: seq<Run<T>>, lo: int, length: int, count: int)
    requires Chain(runs, lo, length - 1) && 0 <= count && lo + count <= length
    ensures |Flatten(runs)| == length - lo
    ensures Chain(ShiftTail(runs, count, length), lo + count, length - 1)
    ensures Flatten(ShiftTail(runs, count, length)) == Flatten(runs)[..length - lo - count]
  {
    ShiftTailChain(runs, lo, length, count);
    ShiftTailContent(runs, lo, length, count);
  }

  lemma {:induction false} ShiftTailChain<T>(runs: seq<Run<T>>, lo: int, length: int, count: int)
    requires Chain(runs, lo, length - 1) && 0 <= count && lo + count <= length
    ensures Chain(ShiftTail(runs, count, length), lo + count, length - 1)
    decreases |runs|
  {
    if |runs| > 0 {
      ChainTail(runs, lo, length - 1);
      if lo + count >= length {
        ShiftTailDropsAll(runs, lo, length - 1, count, length);
      } else if runs[0].end + count >= length - 1 {
        ShiftTailLastKept(runs, lo, length, count);
      } else {
        ShiftTailChain(runs[1..], runs[0].end + 1, length, count);
        ShiftTailWholeChain(runs, length, count);
      }
    }
  }

  lemma {:induction false} ShiftTailContent<T>(runs: seq<Run<T>>, lo: int, length: int, count: int)
    requires Chain(runs, lo, length - 1) && 0 <= count && lo + count <= length
    ensures |Flatten(runs)| == length - lo
    ensures Flatten(ShiftTail(runs, count, length)) == Flatten(runs)[..length - lo - count]
    decreases |runs|
  {
    ChainLength(runs, lo, length - 1);
    if |runs| > 0 {
      ChainTail(runs, lo, length - 1);
      if lo + count >= length {
        ShiftTailDropsAll(runs, lo, length - 1, count, length);
      } else if runs[0].end + count >= length - 1 {
        ShiftTailLastKept(runs, lo, length, count);
      } else {
        ShiftTailContent(runs[1..], runs[0].end + 1, length, count);
        ShiftTailWholeFlatten(runs, length, count);
      }
    }
  }

  /** The first run is the last one kept: it is cut at the end and the rest falls off. */
  lemma ShiftTailLastKept<T>(runs: seq<Run<T>>, lo: int, length: int, count: int)
    requires Chain(runs, lo, length - 1) && |runs| > 0 && 0 <= count
    requires lo + count < length <= runs[0].end + count + 1
    ensures Chain(ShiftTail(runs, count, length), lo + count, length - 1)
    ensures Flatten(ShiftTail(runs, count, length)) == Flatten(runs)[..length - lo - count]
  {
    var h := LastKeptShape(runs, lo, length, count);
    FlattenSingle(h);
    RunSlice(runs, lo, length - 1, 0, lo, length - count);
    assert Flatten(runs)[lo - lo..length - count - lo] == Flatten(runs)[..length - lo - count];
  }

  /** What `ShiftTailLastKept` shifts to: the first run alone, moved and cut at `length - 1`. */
  lemma LastKeptShape<T>(runs: seq<Run<T>>, lo: int, length: int, count: int) returns (h: Run<T>)
    requires Chain(runs, lo, length - 1) && |runs| > 0 && 0 <= count
    requires lo + count < length <= runs[0].end + count + 1
    ensures h == Run(runs[0].value, lo + count, length - 1)
    ensures ShiftTail(runs, count, length) == [h]
    ensures Chain([h], lo + count, length - 1) && Size(h) == length - lo - count
  {
    var r := runs[0];
    assert r.start == lo && r.start <= r.end;
    ChainTail(runs, lo, length - 1);
    ShiftTailDropsAll(runs[1..], r.end + 1, length - 1, count, length);
    h := Run(r.value, r.start + count, length - 1);
    ShiftTailFirst(runs, count, length, h);
    assert [h] + [] == [h];
  }

  /** The first run of a tail that moves but crosses the end is cut at `length - 1`. */
  lemma ShiftTailFirst<T>(runs: seq<Run<T>>, count: int, length: int, h: Run<T>)
    requires |runs| > 0 && runs[0].start + count < length <= runs[0].end + count + 1
    requires h == Run(runs[0].value, runs[0].start + count, length - 1)
    ensures ShiftTail(runs, count, length) == [h] + ShiftTail(runs[1..], count, length)
  {
    assert Min(runs[0].end + count, length - 1) == length - 1;
  }

  /** The first run moves whole and the rest is shifted on its own: the shape. */
  lemma ShiftTailWholeChain<T>(runs: seq<Run<T>>, length: int, count: int)
    requires |runs| > 0 && runs[0].start <= runs[0].end && 0 <= count && runs[0].end + count < length - 1
    requires Chain(ShiftTail(runs[1..], count, length), runs[0].end + 1 + count, length - 1)
    ensures Chain(ShiftTail(runs, count, length), runs[0].start + count, length - 1)
  {
    var r := runs[0];
    var h := Run(r.value, r.start + count, r.end + count);
    assert ShiftTail(runs, count, length) == [h] + ShiftTail(runs[1..], count, length);
    WholeChain(h, ShiftTail(runs[1..], count, length), r.start + count, length - 1);
  }

  /** The first run moves whole and the rest is shifted on its own: the content. */
  lemma ShiftTailWholeFlatten<T>(runs: seq<Run<T>>, length: int, count: int)
    requires |runs| > 0 && runs[0].start <= runs[0].end && 0 <= count && runs[0].end + count < length - 1
    requires |Flatten(runs[1..])| == length - runs[0].end - 1
    requires Flatten(ShiftTail(runs[1..], count, length)) == Flatten(runs[1..])[..length - runs[0].end - 1 - count]
    ensures Flatten(ShiftTail(runs, count, length)) == Flatten(runs)[..length - runs[0].start - count]
  {
    var r, rest := runs[0], runs[1..];
    var h := Run(r.value, r.start + count, r.end + count);
    assert runs == [r] + rest;
    assert ShiftTail(runs, count, length) == [h] + ShiftTail(rest, count, length);
    HeadAndTail(r, h, rest, ShiftTail(rest, count, length), length - r.start - count);
  }

  /** A well-formed head run in front of a chain that starts right after it. */
  lemma WholeChain<T>(h: Run<T>, t: seq<Run<T>>, lo: int, hi: int)
    requires h.start == lo <= h.end && Chain(t, h.end + 1, hi)
    ensures Chain([h] + t, lo, hi)
  {
    ChainAppend([h], t, lo, h.end + 1, hi);
  }

  /** Flattening a head run of unchanged size in front of a prefix of the rest. */
  lemma HeadAndTail<T>(r: Run<T>, h: Run<T>, rest: seq<Run<T>>, t: seq<Run<T>>, n: int)
    requires h.value == r.value && Size(h) == Size(r) && Size(r) <= n <= Size(r) + |Flatten(rest)|
    requires Flatten(t) == Flatten(rest)[..n - Size(r)]
    ensures Flatten([h] + t) == Flatten([r] + rest)[..n]
  {
    FlattenAppend([h], t);
    FlattenSingle(h);
    FlattenAppend([r], rest);
    FlattenSingle(r);
  }

  lemma {:induction false} ShiftTailCompressed<T>(runs: seq<Run<T>>, lo: int, hi: int, count: int, length: int)
    requires Chain(runs, lo, hi) && Compressed(runs)
    ensures Compressed(ShiftTail(runs, count, length))
    ensures |ShiftTail(runs, count, length)| > 0 ==> ShiftTail(runs, count, length)[0].value == runs[0].value
    decreases |runs|
  {
    if |runs| > 0 {
      ChainTail(runs, lo, hi);
      if runs[0].start + count >= length {
        ShiftTailDropsAll(runs, lo, hi, count, length);
      } else {
        ShiftTailCompressed(runs[1..], runs[0].end + 1, hi, count, length);
        var h := Run(runs[0].value, runs[0].start + count, Min(runs[0].end + count, length - 1));
        var rest := ShiftTail(runs[1..], count, length);
        assert ShiftTail(runs, count, length) == [h] + rest;
        if |rest| > 0 {
          assert runs[1..][0] == runs[1];
        }
        CompressedAppend([h], rest);
      }
    }
  }

  /**
    The copy loop of `GetRange`: runs are taken from the first until one starts after
    `end`, each clipped to [start, end] and re-based so that `start` becomes 0.
  */
  function ClipWindow<T>(runs: seq<Run<T>>, start: int, end: int): seq<Run<T>>
    decreases |runs|
  {
    if |runs| == 0 || runs[0].start > end then []
    else
      [Run(runs[0].value, Max(runs[0].start, start) - start, Min(runs[0].end, end) - start)]
      + ClipWindow(runs[1..], start, end)
  }

  /** The clipped window tiles [Max(lo, start) - start, end - start] and holds the matching slice. */
  lemma {:induction false} ClipWindowSpec<T>(runs: seq<Run<T>>, lo: int, hi: int, start: int, end: int)
    requires Chain(runs, lo, hi) && start <= end <= hi && lo <= end + 1
    requires |runs| > 0 ==> start <= runs[0].end
    ensures |Flatten(runs)| == hi - lo + 1
    ensures Chain(ClipWindow(runs, start, end), Max(lo, start) - start, end - start)
    ensures Flatten(ClipWindow(runs, start, end)) == Flatten(runs)[Max(lo, start) - lo..end - lo + 1]
    decreases |runs|, 1
  {
    ChainLength(runs, lo, hi);
    if |runs| > 0 && runs[0].start <= end {
      if runs[0].end >= end {
        ClipWindowLast(runs, lo, hi, start, end);
      } else {
        ClipWindowPast(runs, lo, hi, start, end);
      }
    }
  }

  /** The window ends inside the first run. */
  lemma {:induction false} ClipWindowLast<T>(runs: seq<Run<T>>, lo: int, hi: int, start: int, end: int)
    requires Chain(runs, lo, hi) && |runs| > 0 && start <= end <= runs[0].end && lo <= end
    requires start <= runs[0].end
    ensures Chain(ClipWindow(runs, start, end), Max(lo, start) - start, end - start)
    ensures Flatten(ClipWindow(runs, start, end)) == Flatten(runs)[Max(lo, start) - lo..end - lo + 1]
  {
    var r := runs[0];
    var h := Run(r.value, Max(lo, start) - start, end - start);
    assert runs[1..] == [] || runs[1].start > end;
    assert ClipWindow(runs, start, end) == [h] + [];
    FlattenSingle(h);
    RunSlice(runs, lo, hi, 0, Max(lo, start), end + 1);
  }

  /** The window goes past the first run: the clipped rest extends to the clipped whole. */
  lemma {:induction false} ClipWindowPast<T>(runs: seq<Run<T>>, lo: int, hi: int, start: int, end: int)
    requires Chain(runs, lo, hi) && |runs| > 0 && start <= runs[0].end < end <= hi
    ensures |Flatten(runs)| == hi - lo + 1
    ensures Chain(ClipWindow(runs, start, end), Max(lo, start) - start, end - start)
    ensures Flatten(ClipWindow(runs, start, end)) == Flatten(runs)[Max(lo, start) - lo..end - lo + 1]
    decreases |runs|, 0
  {
    ChainLength(runs, lo, hi);
    ChainTail(runs, lo, hi);
    assert runs[1..][0] == runs[1];
    ClipWindowSpec(runs[1..], runs[0].end + 1, hi, start, end);
    ClipPastRest(runs, lo, hi, start, end);
  }

  /** The clipped rest, given the window's clip of it, extends to the clip of the whole list. */
  lemma {:induction false} ClipPastRest<T>(runs: seq<Run<T>>, lo: int, hi: int, start: int, end: int)
    requires |runs| > 0 && runs[0].start == lo <= runs[0].end && start <= runs[0].end < end <= hi
    requires |Flatten(runs[1..])| == hi - (runs[0].end + 1) + 1
    requires Chain(ClipWindow(runs[1..], start, end), Max(runs[0].end + 1, start) - start, end - start)
    requires Flatten(ClipWindow(runs[1..], start, end))
      == Flatten(runs[1..])[Max(runs[0].end + 1, start) - (runs[0].end + 1)..end - (runs[0].end + 1) + 1]
    ensures Chain(ClipWindow(runs, start, end), Max(lo, start) - start, end - start)
    ensures Flatten(ClipWindow(runs, start, end)) == Flatten(runs)[Max(lo, start) - lo..end - lo + 1]
  {
    var r := runs[0];
    var e := r.end;
    assert Max(e + 1, start) == e + 1;
    assert Max(e + 1, start) - start == e + 1 - start;
    assert Max(e + 1, start) - (e + 1) == 0 && end - (e + 1) + 1 == end - e;
    var h := Run(r.value, Max(r.start, start) - start, Min(r.end, end) - start);
    var t, c := ClipWindow(runs[1..], start, end), ClipWindow(runs, start, end);
    ClipWindowHead(runs, start, end);
    assert c == [h] + t;
    var rest, f := Flatten(runs[1..]), Flatten(runs);
    FlattenHead(runs);
    assert f == Fill(r.value, Size(r)) + rest;
    ClipPastParts(r, h, t, c, rest, f, lo, start, end);
  }

  /** Unfolding the clip once when the first run starts inside the window. */
  lemma ClipWindowHead<T>(runs: seq<Run<T>>, start: int, end: int)
    requires |runs| > 0 && runs[0].start <= end
    ensures ClipWindow(runs, start, end)
      == [Run(runs[0].value, Max(runs[0].start, start) - start, Min(runs[0].end, end) - start)] + ClipWindow(runs[1..], start, end)
  {
  }

  /**
    The clipped first run `h` in front of the clipped rest `t` (together `c`): the shape and
    the content `c` has when the whole content `f` is the first run's block then `rest`.
  */
  lemma {:induction false} ClipPastParts<T>(r: Run<T>, h: Run<T>, t: seq<Run<T>>, c: seq<Run<T>>, rest: seq<T>, f: seq<T>,
                                            lo: int, start: int, end: int)
    requires r.start == lo <= r.end && start <= r.end < end && r.end - r.start + 1 + |rest| > end - r.start
    requires h == Run(r.value, Max(r.start, start) - start, Min(r.end, end) - start)
    requires c == [h] + t && f == Fill(r.value, Size(r)) + rest
    requires Chain(t, r.end + 1 - start, end - start)
    requires Flatten(t) == rest[0..end - r.end]
    ensures Chain(c, Max(lo, start) - start, end - start)
    ensures Flatten(c) == f[Max(lo, start) - lo..end - lo + 1]
  {
    WholeChain(h, t, Max(r.start, start) - start, end - start);
    ClippedHead(r.value, Size(r), h, rest, t, Max(r.start, start) - r.start, end - r.start + 1);
  }

  /** Flattening a head run cut down to the last `Size(h)` of `n` copies in front of a prefix of the rest. */
  lemma {:induction false} ClippedHead<T>(v: T, n: nat, h: Run<T>, rest: seq<T>, t: seq<Run<T>>, i: int, j: int)
    requires h.value == v && 0 <= i <= n <= j <= n + |rest|
    requires Size(h) == n - i
    requires Flatten(t) == rest[0..j - n]
    ensures Flatten([h] + t) == (Fill(v, n) + rest)[i..j]
  {
    FlattenAppend([h], t);
    FlattenSingle(h);
    SliceAcross(Fill(v, n), rest, i, j);
    FillSlice(v, n, i, n);
    assert Fill(v, n)[i..] == Fill(v, n)[i..n];
    assert rest[0..j - n] == rest[..j - n];
  }

  lemma {:induction false} ClipWindowCompressed<T>(runs: seq<Run<T>>, start: int, end: int)
    requires Compressed(runs)
    ensures Compressed(ClipWindow(runs, start, end))
    ensures |ClipWindow(runs, start, end)| > 0 ==> ClipWindow(runs, start, end)[0].value == runs[0].value
    decreases |runs|
  {
    if |runs| > 0 && runs[0].start <= end {
      ClipWindowCompressed(runs[1..], start, end);
      var h := Run(runs[0].value, Max(runs[0].start, start) - start, Min(runs[0].end, end) - start);
      var rest := ClipWindow(runs[1..], start, end);
      assert ClipWindow(runs, start, end) == [h] + rest;
      if |rest| > 0 {
        assert runs[1..][0] == runs[1];
      }
      CompressedAppend([h], rest);
    }
  }
}
