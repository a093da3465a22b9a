/**
  The range mutations on the run list: `SetRangeCore` (overwrite a window with a block of
  runs), `InsertRangeCore` (insert a block, shifting the rest forward), the body of
  `Remove` (cut a window, shift the rest back, refill the end) and the copy loop of
  `GetRange`.
*/
module RangeOps {
  import opened Errors
  import opened Runs
  import opened RunAlgebra
  import opened Lookup
  import opened Cutting
  import opened Splicing
  import opened PointSet
  import opened Sequences

  /**
    The tail shared by `SetRangeCore` and `InsertRangeCore`: the placed block goes in at
    position `at`, then its last run is merged with the next one and its first run with
    the previous one.
  */
  function PutBlock<T(==)>(items: seq<Run<T>>, at: int, placed: seq<Run<T>>): (r: seq<Run<T>>)
    requires 0 <= at <= |items| && |placed| > 0
    ensures r == Join(items[..at], Join(placed, items[at..]))
  {
    var list := items[..at] + placed + items[at..];
    assert list[..at + |placed|] == items[..at] + placed && list[at + |placed|..] == items[at..];
    var r1 := MergeWithNext(list, at + |placed| - 1).1;
    JoinPrefix(items[..at], placed, items[at..]);
    assert r1 == items[..at] + Join(placed, items[at..]);
    assert r1[..at] == items[..at] && r1[at..] == Join(placed, items[at..]);
    MergeWithPrevious(r1, at).1
  }

  /**
    `SetRangeCore`: cut the window the block covers, then put the block, moved to
    `start` and passed through the converter, in its place.
  */
  function SetRangeCore<T(==)>(runs: seq<Run<T>>, start: int, block: seq<Run<T>>, converter: Option<T -> T>, hint: int): seq<Run<T>>
    requires |block| > 0
  {
    var end := start + block[|block| - 1].end;
    var (items, at) := Cut(runs, start, end, hint);
    if 0 <= at <= |items| then PutBlock(items, at, Place(block, start, converter))
    else runs
  }

  /**
    `InsertRangeCore`: open a gap of the block's length at `index` (the tail moves forward
    and loses what passes `length`), then put the block in it.
  */
  function InsertRangeCore<T(==)>(runs: seq<Run<T>>, length: int, index: int, block: seq<Run<T>>, converter: Option<T -> T>, hint: int): seq<Run<T>>
    requires |block| > 0
  {
    var count := block[|block| - 1].end + 1;
    var (items, at) := OpenGap(runs, index, count, length, hint);
    if 0 <= at <= |items| then PutBlock(items, at, Place(block, index, converter))
    else runs
  }

  /**
    The body of `Remove`: read the last value, cut the window, then either append a run
    of the last value when nothing followed the window, or move the following runs back
    by `count` and stretch the final one to the end; finally merge at the seam.
  */
  function RemoveRuns<T(==)>(runs: seq<Run<T>>, length: int, index: int, count: int, hint: int): seq<Run<T>>
  {
    var k := Locate(runs, length - 1, hint);
    if k < 0 then runs
    else
      var lastValue := runs[k].value;
      var (items, at) := Cut(runs, index, index + count - 1, k);
      if !(0 <= at <= |items|) then runs
      else
        var list :=
          if at == |items| then items + [Run(lastValue, index, length - 1)]
          else items[..at] + ExtendLast(Place(items[at..], -count, None), length - 1);
        if at < |list| then MergeWithPrevious(list, at).1 else list
  }

  /** The copy loop of `GetRange`, from the run holding `start` on. */
  function WindowRuns<T>(runs: seq<Run<T>>, start: int, end: int, hint: int): seq<Run<T>>
  {
    var k := Locate(runs, start, hint);
    if k < 0 then [] else ClipWindow(runs[k..], start, end)
  }

  // ---------------------------------------------------------------------------------
  // Cutting a window

  /** The cut of [start, end] as the part before the window and the part after it. */
  lemma {:induction false} CutPieces<T>(runs: seq<Run<T>>, length: int, start: int, end: int, hint: int)
    returns (x: seq<Run<T>>, y: seq<Run<T>>)
    requires Chain(runs, 0, length - 1) && 0 <= start <= end < length
    ensures Cut(runs, start, end, hint) == (x + y, |x|)
    ensures |Flatten(runs)| == length
    ensures Chain(x, 0, start - 1) && Chain(y, end + 1, length - 1)
    ensures Flatten(x) == Flatten(runs)[..start] && Flatten(y) == Flatten(runs)[end + 1..]
    ensures Compressed(runs) ==> Compressed(x) && Compressed(y)
  {
    var k1, k2 := CutSpec(runs, 0, length - 1, start, end, hint);
    x, y := Before(runs, k1, start), After(runs, k2, end);
    CutHalves(runs, length - 1, k1, k2, start, end, x, y);
  }

  /** The cut of [start, end] as the part before the window and the part after it, and nothing more. */
  lemma CutSplit<T>(runs: seq<Run<T>>, length: int, start: int, end: int, hint: int) returns (x: seq<Run<T>>, y: seq<Run<T>>)
    requires Chain(runs, 0, length - 1) && 0 <= start <= end < length
    ensures Cut(runs, start, end, hint) == (x + y, |x|)
  {
    x, y := CutPieces(runs, length, start, end, hint);
  }

  /** The facts of `CutPieces` for any split of the cut at its reported position. */
  lemma {:induction false} CutFacts<T>(runs: seq<Run<T>>, length: int, start: int, end: int, hint: int, x: seq<Run<T>>, y: seq<Run<T>>)
    requires Chain(runs, 0, length - 1) && 0 <= start <= end < length
    requires Cut(runs, start, end, hint) == (x + y, |x|)
    ensures |Flatten(runs)| == length
    ensures Chain(x, 0, start - 1) && Chain(y, end + 1, length - 1)
    ensures Flatten(x) == Flatten(runs)[..start] && Flatten(y) == Flatten(runs)[end + 1..]
    ensures Compressed(runs) ==> Compressed(x) && Compressed(y)
  {
    var x', y' := CutPieces(runs, length, start, end, hint);
    SameSplit(x, y, x', y');
  }

  /** Two splits of one sequence at one position are the same split. */
  lemma SameSplit<T>(x: seq<T>, y: seq<T>, x': seq<T>, y': seq<T>)
    requires x + y == x' + y' && |x| == |x'|
    ensures x == x' && y == y'
  {
    assert x == (x + y)[..|x|] && x' == (x' + y')[..|x'|];
    assert y == (x + y)[|x|..] && y' == (x' + y')[|x'|..];
  }

  // ---------------------------------------------------------------------------------
  // SetRangeCore

  /** Once the window is cut, the block goes between the two halves. */
  lemma SetRangeEquals<T>(runs: seq<Run<T>>, start: int, end: int, block: seq<Run<T>>, converter: Option<T -> T>, hint: int,
                          x: seq<Run<T>>, y: seq<Run<T>>)
    requires |block| > 0 && end == start + block[|block| - 1].end && Cut(runs, start, end, hint) == (x + y, |x|)
    ensures SetRangeCore(runs, start, block, converter, hint) == Join(x, Join(Place(block, start, converter), y))
  {
    var items, p := x + y, Place(block, start, converter);
    assert Cut(runs, start, start + block[|block| - 1].end, hint) == (items, |x|);
    assert SetRangeCore(runs, start, block, converter, hint) == PutBlock(items, |x|, p);
    assert items[..|x|] == x && items[|x|..] == y;
  }

  /**
    `SetRangeCore` on a collection tiling [0, length - 1] with a block tiling [0, n - 1]
    that fits from `start`: the window [start, start + n - 1] now holds the block's
    (converted) values and nothing outside it changes. Compression is kept when the
    converter keeps the block's neighbouring values distinct.
  */
  lemma {:induction false} SetRangeCoreSpec<T>(runs: seq<Run<T>>, length: int, start: int, block: seq<Run<T>>, n: int, converter: Option<T -> T>, hint: int)
    requires Chain(runs, 0, length - 1) && Chain(block, 0, n - 1) && 1 <= n && 0 <= start && start + n <= length
    ensures |Flatten(runs)| == length && |Flatten(block)| == n
    ensures Chain(SetRangeCore(runs, start, block, converter, hint), 0, length - 1)
    ensures Flatten(SetRangeCore(runs, start, block, converter, hint))
      == Overwrite(Flatten(runs), start, ConvertAll(converter, Flatten(block)))
    ensures Compressed(runs) && DistinctUnder(block, converter) ==> Compressed(SetRangeCore(runs, start, block, converter, hint))
  {
    ChainLength(block, 0, n - 1);
    var end := start + block[|block| - 1].end;
    var x, y := CutPieces(runs, length, start, end, hint);
    SetRangeEquals(runs, start, end, block, converter, hint, x, y);
    var r := SetRangeCore(runs, start, block, converter, hint);
    SetRangeResult(runs, length, start, end, block, n, converter, x, y, r);
  }

  /** The glued result tiles the collection and holds the overwritten content. */
  lemma {:induction false} SetRangeResult<T>(runs: seq<Run<T>>, length: int, start: int, end: int, block: seq<Run<T>>, n: int,
                          converter: Option<T -> T>, x: seq<Run<T>>, y: seq<Run<T>>, r: seq<Run<T>>)
    requires Chain(block, 0, n - 1) && 1 <= n && 0 <= start && end == start + n - 1 && end < length && |Flatten(runs)| == length
    requires Chain(x, 0, start - 1) && Chain(y, end + 1, length - 1)
    requires Flatten(x) == Flatten(runs)[..start] && Flatten(y) == Flatten(runs)[end + 1..]
    requires r == Join(x, Join(Place(block, start, converter), y))
    ensures |Flatten(block)| == n
    ensures Chain(r, 0, length - 1)
    ensures Flatten(r) == Overwrite(Flatten(runs), start, ConvertAll(converter, Flatten(block)))
    ensures Compressed(runs) && DistinctUnder(block, converter) && Compressed(x) && Compressed(y) ==> Compressed(r)
  {
    var p := Place(block, start, converter);
    PlacedBlock(block, n, start, end, converter);
    JoinNested(x, p, y, 0, start, end, length - 1);
    OverwritePieces(Flatten(runs), start, end, ConvertAll(converter, Flatten(block)), Flatten(x), Flatten(y));
    if DistinctUnder(block, converter) && Compressed(x) && Compressed(y) {
      PlaceCompressed(block, start, converter);
      NestedCompressed(x, p, y);
    }
  }

  /** The content of an overwrite, assembled from its three pieces. */
  lemma OverwritePieces<T>(f: seq<T>, start: int, end: int, block: seq<T>, fx: seq<T>, fy: seq<T>)
    requires 0 <= start && end == start + |block| - 1 && end < |f|
    requires fx == f[..start] && fy == f[end + 1..]
    ensures fx + block + fy == Overwrite(f, start, block)
  {
    assert start + |block| == end + 1;
  }

  /** A block tiling [0, n - 1] placed at `offset` tiles [offset, offset + n - 1]. */
  lemma PlacedBlock<T>(block: seq<Run<T>>, n: int, offset: int, end: int, converter: Option<T -> T>)
    requires Chain(block, 0, n - 1) && end == offset + n - 1
    ensures Chain(Place(block, offset, converter), offset, end)
    ensures Flatten(Place(block, offset, converter)) == ConvertAll(converter, Flatten(block))
    ensures |Flatten(block)| == n
  {
    ChainLength(block, 0, n - 1);
    PlaceChain(block, 0, n - 1, offset, converter);
    FlattenPlace(block, offset, converter);
  }

  lemma NestedCompressed<T>(x: seq<Run<T>>, p: seq<Run<T>>, y: seq<Run<T>>)
    requires Compressed(x) && Compressed(p) && Compressed(y)
    ensures Compressed(Join(x, Join(p, y)))
  {
    JoinCompressed(p, y);
    JoinCompressed(x, Join(p, y));
  }

  // ---------------------------------------------------------------------------------
  // InsertRangeCore

  /** The gap opened at `index` as the part before it and the shifted tail. */
  lemma GapPieces<T>(runs: seq<Run<T>>, length: int, index: int, n: int, hint: int)
    returns (x: seq<Run<T>>, y: seq<Run<T>>)
    requires Chain(runs, 0, length - 1) && 1 <= n && 0 <= index && index + n <= length
    ensures OpenGap(runs, index, n, length, hint) == (x + y, |x|)
    ensures |Flatten(runs)| == length
    ensures Chain(x, 0, index - 1) && Chain(y, index + n, length - 1)
    ensures Flatten(x) == Flatten(runs)[..index] && Flatten(y) == Flatten(runs)[index..][..length - index - n]
    ensures Compressed(runs) ==> Compressed(x) && Compressed(y)
  {
    LocateIgnoresHint(runs, 0, length - 1, index, hint);
    OpenGapShape(runs, index, n, length, hint);
    var k := Locate(runs, index, hint);
    x, y := GapHalves(runs, length, k, index, n);
    if Compressed(runs) {
      GapCompressed(runs, length, k, index, n);
    }
  }

  /** The two halves around the run `k` holding `index`, the tail shifted by `n`. */
  lemma GapHalves<T>(runs: seq<Run<T>>, length: int, k: int, index: int, n: int)
    returns (x: seq<Run<T>>, y: seq<Run<T>>)
    requires Chain(runs, 0, length - 1) && 0 <= k < |runs| && Covers(runs[k], index)
    requires 1 <= n && index + n <= length
    ensures x == Before(runs, k, index) && y == ShiftTail(After(runs, k, index - 1), n, length)
    ensures |Flatten(runs)| == length && 0 <= index
    ensures Chain(x, 0, index - 1) && Chain(y, index + n, length - 1)
    ensures Flatten(x) == Flatten(runs)[..index] && Flatten(y) == Flatten(runs)[index..][..length - index - n]
  {
    x, y := Before(runs, k, index), ShiftTail(After(runs, k, index - 1), n, length);
    var f := Flatten(runs);
    BeforeChain(runs, 0, length - 1, k, index);
    BeforeFlatten(runs, 0, length - 1, k, index);
    assert Flatten(x) == f[..index - 0] == f[..index];
    OpenGapTail(runs, 0, k, index, n, length);
    assert Flatten(y) == f[index - 0..][..length - index - n] && f[index - 0..] == f[index..];
  }

  lemma GapCompressed<T>(runs: seq<Run<T>>, length: int, k: int, index: int, n: int)
    requires Chain(runs, 0, length - 1) && Compressed(runs) && 0 <= k < |runs| && Covers(runs[k], index)
    ensures Compressed(Before(runs, k, index)) && Compressed(ShiftTail(After(runs, k, index - 1), n, length))
  {
    BeforeCompressed(runs, k, index);
    AfterCompressed(runs, k, index - 1);
    AfterChain(runs, 0, length - 1, k, index - 1);
    ShiftTailCompressed(After(runs, k, index - 1), index, length - 1, n, length);
  }

  /** Once the gap is open, the block goes between the two halves. */
  lemma InsertEquals<T>(runs: seq<Run<T>>, length: int, index: int, count: int, block: seq<Run<T>>, converter: Option<T -> T>, hint: int,
                        x: seq<Run<T>>, y: seq<Run<T>>)
    requires |block| > 0 && count == block[|block| - 1].end + 1 && OpenGap(runs, index, count, length, hint) == (x + y, |x|)
    ensures InsertRangeCore(runs, length, index, block, converter, hint) == Join(x, Join(Place(block, index, converter), y))
  {
    var items, p := x + y, Place(block, index, converter);
    assert OpenGap(runs, index, block[|block| - 1].end + 1, length, hint) == (items, |x|);
    assert InsertRangeCore(runs, length, index, block, converter, hint) == PutBlock(items, |x|, p);
    assert items[..|x|] == x && items[|x|..] == y;
  }

  /** The content of an insertion, assembled from its three pieces. */
  lemma InsertPieces<T>(f: seq<T>, length: int, index: int, count: int, block: seq<T>, fx: seq<T>, fy: seq<T>)
    requires |f| == length && count == |block| && 0 <= index && index + count <= length
    requires fx == f[..index] && fy == f[index..][..length - index - count]
    ensures fx + block + fy == InsertShift(f, index, block)
  {
    var r := fx + block + fy;
    assert r[..index] == f[..index];
    assert r[index..index + |block|] == block;
    assert r[index + |block|..] == f[index..|f| - |block|];
  }

  /**
    `InsertRangeCore` on a collection tiling [0, length - 1]: the block's (converted)
    values appear at `index`, the old content from `index` on follows them, the last
    `n` values are gone, and the length is unchanged.
  */
  lemma {:induction false} InsertRangeCoreSpec<T>(runs: seq<Run<T>>, length: int, index: int, block: seq<Run<T>>, n: int, converter: Option<T -> T>, hint: int)
    requires Chain(runs, 0, length - 1) && Chain(block, 0, n - 1) && 1 <= n && 0 <= index && index + n <= length
    ensures |Flatten(runs)| == length && |Flatten(block)| == n
    ensures Chain(InsertRangeCore(runs, length, index, block, converter, hint), 0, length - 1)
    ensures Flatten(InsertRangeCore(runs, length, index, block, converter, hint))
      == InsertShift(Flatten(runs), index, ConvertAll(converter, Flatten(block)))
    ensures Compressed(runs) && DistinctUnder(block, converter) ==> Compressed(InsertRangeCore(runs, length, index, block, converter, hint))
  {
    ChainLength(block, 0, n - 1);
    var count := block[|block| - 1].end + 1;
    var x, y := GapPieces(runs, length, index, count, hint);
    InsertEquals(runs, length, index, count, block, converter, hint, x, y);
    var r := InsertRangeCore(runs, length, index, block, converter, hint);
    InsertResult(runs, length, index, count, block, n, converter, x, y, r);
  }

  /** The glued result tiles the collection and holds the shifted content. */
  lemma {:induction false} InsertResult<T>(runs: seq<Run<T>>, length: int, index: int, count: int, block: seq<Run<T>>, n: int,
                        converter: Option<T -> T>, x: seq<Run<T>>, y: seq<Run<T>>, r: seq<Run<T>>)
    requires Chain(block, 0, n - 1) && count == n && 1 <= n && 0 <= index && index + count <= length && |Flatten(runs)| == length
    requires Chain(x, 0, index - 1) && Chain(y, index + count, length - 1)
    requires Flatten(x) == Flatten(runs)[..index] && Flatten(y) == Flatten(runs)[index..][..length - index - count]
    requires r == Join(x, Join(Place(block, index, converter), y))
    ensures |Flatten(block)| == n
    ensures Chain(r, 0, length - 1)
    ensures Flatten(r) == InsertShift(Flatten(runs), index, ConvertAll(converter, Flatten(block)))
    ensures DistinctUnder(block, converter) && Compressed(x) && Compressed(y) ==> Compressed(r)
  {
    var p := Place(block, index, converter);
    var end := index + count - 1;
    PlacedBlock(block, n, index, end, converter);
    assert Chain(y, end + 1, length - 1);
    JoinNested(x, p, y, 0, index, end, length - 1);
    InsertPieces(Flatten(runs), length, index, count, ConvertAll(converter, Flatten(block)), Flatten(x), Flatten(y));
    if DistinctUnder(block, converter) && Compressed(x) && Compressed(y) {
      PlaceCompressed(block, index, converter);
      NestedCompressed(x, p, y);
    }
  }

  // ---------------------------------------------------------------------------------
  // Remove

  /** The block that replaces the window and everything after it. */
  function Refill<T>(y: seq<Run<T>>, lastValue: T, index: int, count: int, length: int): seq<Run<T>>
  {
    if |y| == 0 then [Run(lastValue, index, length - 1)]
    else ExtendLast(Place(y, -count, None), length - 1)
  }

  /** Once the window is cut, the refill follows the part before it, merged at the seam. */
  lemma RemoveEquals<T>(runs: seq<Run<T>>, length: int, index: int, count: int, hint: int, k: int,
                        x: seq<Run<T>>, y: seq<Run<T>>)
    requires k == Locate(runs, length - 1, hint) && 0 <= k < |runs|
    requires Cut(runs, index, index + count - 1, k) == (x + y, |x|)
    ensures RemoveRuns(runs, length, index, count, hint) == Join(x, Refill(y, runs[k].value, index, count, length))
  {
    var items := x + y;
    assert Cut(runs, index, index + count - 1, k) == (items, |x|);
    assert items[..|x|] == x && items[|x|..] == y;
    var z := Refill(y, runs[k].value, index, count, length);
    var list := x + z;
    assert list[..|x|] == x && list[|x|..] == z;
    if |y| == 0 {
      assert items + [Run(runs[k].value, index, length - 1)] == list;
    } else {
      assert items[..|x|] + ExtendLast(Place(items[|x|..], -count, None), length - 1) == list;
    }
    assert RemoveRuns(runs, length, index, count, hint) == MergeWithPrevious(list, |x|).1;
  }

  /** The refill tiles [index, length - 1]: the runs after the window moved back, then the last value. */
  lemma {:induction false} RefillSpec<T>(y: seq<Run<T>>, f: seq<T>, last: T, index: int, count: int, length: int)
    requires 1 <= count && 0 <= index && index + count <= length && |f| == length && last == f[length - 1]
    requires Chain(y, index + count, length - 1) && Flatten(y) == f[index + count..]
    ensures Chain(Refill(y, last, index, count, length), index, length - 1)
    ensures Flatten(Refill(y, last, index, count, length)) == f[index + count..] + Fill(last, count)
    ensures Compressed(y) ==> Compressed(Refill(y, last, index, count, length))
  {
    if |y| == 0 {
      RefillEmpty(y, f, last, index, count, length);
    } else {
      RefillShifted(y, f, last, index, count, length);
      if Compressed(y) {
        ShiftCompressed(y, -count);
        ExtendLastCompressed(Place(y, -count, None), length - 1);
      }
    }
  }

  /** Nothing followed the window: the refill is one run of the last value over the freed end. */
  lemma {:induction false} RefillEmpty<T>(y: seq<Run<T>>, f: seq<T>, last: T, index: int, count: int, length: int)
    requires 1 <= count && 0 <= index && index + count <= length && |f| == length && |y| == 0
    requires Chain(y, index + count, length - 1)
    ensures Chain([Run(last, index, length - 1)], index, length - 1)
    ensures Flatten([Run(last, index, length - 1)]) == f[index + count..] + Fill(last, count)
  {
    ChainLength(y, index + count, length - 1);
    var run := Run(last, index, length - 1);
    assert Size(run) == count;
    FlattenSingle(run);
    assert f[index + count..] == [];
  }

  /** A non-empty tail moved back by `count`, its last run stretched to the end. */
  lemma {:induction false} RefillShifted<T>(y: seq<Run<T>>, f: seq<T>, last: T, index: int, count: int, length: int)
    requires 1 <= count && 0 <= index && index + count <= length && |f| == length && last == f[length - 1] && |y| > 0
    requires Chain(y, index + count, length - 1) && Flatten(y) == f[index + count..]
    ensures Chain(ExtendLast(Place(y, -count, None), length - 1), index, length - 1)
    ensures Flatten(ExtendLast(Place(y, -count, None), length - 1)) == f[index + count..] + Fill(last, count)
  {
    var p := Place(y, -count, None);
    var hi := length - 1 - count;
    ShiftedRuns(y, -count, index + count, length - 1, index, hi);
    TailLast(y, f, index + count, length - 1, last);
    ExtendedTail(p, index, hi, count, length - 1, f[index + count..], last);
  }

  /** Moving a chain by `offset` without converting keeps its content and its last value. */
  lemma ShiftedRuns<T>(y: seq<Run<T>>, offset: int, lo: int, hi: int, lo': int, hi': int)
    requires Chain(y, lo, hi) && |y| > 0 && lo' == lo + offset && hi' == hi + offset
    ensures Chain(Place(y, offset, None), lo', hi')
    ensures Flatten(Place(y, offset, None)) == Flatten(y)
    ensures Place(y, offset, None)[|y| - 1].value == y[|y| - 1].value
  {
    PlaceChainAt(y, lo, hi, offset, None, lo', hi');
    FlattenPlace(y, offset, None);
  }

  /** `ExtendLastSpec` with the content and the last value given directly. */
  lemma ExtendedTail<T>(p: seq<Run<T>>, lo: int, hi: int, extra: nat, newEnd: int, rest: seq<T>, last: T)
    requires Chain(p, lo, hi) && |p| > 0 && newEnd == hi + extra && Flatten(p) == rest && p[|p| - 1].value == last
    ensures Chain(ExtendLast(p, newEnd), lo, newEnd)
    ensures Flatten(ExtendLast(p, newEnd)) == rest + Fill(last, extra)
  {
    ExtendLastSpec(p, lo, hi, extra, newEnd);
  }

  /** A non-empty chain holding the tail of `f` ends with the last value of `f`. */
  lemma {:induction false} TailLast<T>(y: seq<Run<T>>, f: seq<T>, s: int, hi: int, last: T)
    requires |y| > 0 && Chain(y, s, hi) && hi == |f| - 1 && 0 <= s <= |f| && Flatten(y) == f[s..] && last == f[hi]
    ensures y[|y| - 1].value == last
  {
    LastValue(y, s, hi);
    assert f[s..][hi - s] == f[hi];
  }

  /** `PlaceChain` with the moved bounds given directly. */
  lemma PlaceChainAt<T>(runs: seq<Run<T>>, lo: int, hi: int, offset: int, converter: Option<T -> T>, lo': int, hi': int)
    requires Chain(runs, lo, hi) && lo' == lo + offset && hi' == hi + offset
    ensures Chain(Place(runs, offset, converter), lo', hi')
  {
    PlaceChain(runs, lo, hi, offset, converter);
  }

  /**
    The body of `Remove` on a collection tiling [0, length - 1]: the `count` values from
    `index` are gone, everything after them moves back, and the freed end holds the old
    last value; the length is unchanged.
  */
  lemma {:induction false} RemoveRunsSpec<T>(runs: seq<Run<T>>, length: int, index: int, count: int, hint: int)
    requires Chain(runs, 0, length - 1) && 1 <= count && 0 <= index && index + count <= length
    ensures |Flatten(runs)| == length
    ensures Chain(RemoveRuns(runs, length, index, count, hint), 0, length - 1)
    ensures Flatten(RemoveRuns(runs, length, index, count, hint)) == RemoveShift(Flatten(runs), index, count)
    ensures Compressed(runs) ==> Compressed(RemoveRuns(runs, length, index, count, hint))
  {
    LocateValue(runs, length - 1, length - 1, hint);
    var k := Locate(runs, length - 1, hint);
    var x, y := CutSplit(runs, length, index, index + count - 1, k);
    RemoveEquals(runs, length, index, count, hint, k, x, y);
    RemoveJoined(runs, length, index, count, k, x, y);
  }

  /** The part before the window joined to the refill, as `RemoveRunsSpec` states it. */
  lemma {:induction false} RemoveJoined<T>(runs: seq<Run<T>>, length: int, index: int, count: int, k: int, x: seq<Run<T>>, y: seq<Run<T>>)
    requires Chain(runs, 0, length - 1) && 1 <= count && 0 <= index && index + count <= length
    requires 0 <= k < |runs| && length - 1 < |Flatten(runs)| && Flatten(runs)[length - 1] == runs[k].value
    requires Cut(runs, index, index + count - 1, k) == (x + y, |x|)
    ensures |Flatten(runs)| == length
    ensures Chain(Join(x, Refill(y, runs[k].value, index, count, length)), 0, length - 1)
    ensures Flatten(Join(x, Refill(y, runs[k].value, index, count, length))) == RemoveShift(Flatten(runs), index, count)
    ensures Compressed(runs) ==> Compressed(Join(x, Refill(y, runs[k].value, index, count, length)))
  {
    var f := Flatten(runs);
    CutFacts(runs, length, index, index + count - 1, k, x, y);
    TailFrom(y, f, index + count - 1, index + count, length - 1);
    var r := Join(x, Refill(y, runs[k].value, index, count, length));
    RemoveResult(f, runs[k].value, length, index, count, x, y, r);
  }

  /** The part after a window ending at `e`, restated from the position `s` = `e + 1`. */
  lemma TailFrom<T>(y: seq<Run<T>>, f: seq<T>, e: int, s: int, hi: int)
    requires s == e + 1 && Chain(y, e + 1, hi) && 0 <= e + 1 <= |f| && Flatten(y) == f[e + 1..]
    ensures Chain(y, s, hi) && Flatten(y) == f[s..]
  {
  }

  /** The glued result tiles the collection and holds the content with the window removed. */
  lemma {:induction false} RemoveResult<T>(f: seq<T>, last: T, length: int, index: int, count: int, x: seq<Run<T>>, y: seq<Run<T>>, r: seq<Run<T>>)
    requires 1 <= count && 0 <= index && index + count <= length && |f| == length && last == f[length - 1]
    requires Chain(x, 0, index - 1) && Chain(y, index + count, length - 1)
    requires Flatten(x) == f[..index] && Flatten(y) == f[index + count..]
    requires r == Join(x, Refill(y, last, index, count, length))
    ensures Chain(r, 0, length - 1)
    ensures Flatten(r) == RemoveShift(f, index, count)
    ensures Compressed(x) && Compressed(y) ==> Compressed(r)
  {
    var z := Refill(y, last, index, count, length);
    RefillSpec(y, f, last, index, count, length);
    RemoveGlue(f, last, length, index, count, x, z);
    if Compressed(x) && Compressed(y) {
      JoinCompressed(x, z);
    }
  }

  /** The part before the window glued to the refill. */
  lemma {:induction false} RemoveGlue<T>(f: seq<T>, last: T, length: int, index: int, count: int, x: seq<Run<T>>, z: seq<Run<T>>)
    requires 1 <= count && 0 <= index && index + count <= length && |f| == length && last == f[length - 1]
    requires Chain(x, 0, index - 1) && Chain(z, index, length - 1)
    requires Flatten(x) == f[..index] && Flatten(z) == f[index + count..] + Fill(last, count)
    ensures Chain(Join(x, z), 0, length - 1)
    ensures Flatten(Join(x, z)) == RemoveShift(f, index, count)
  {
    JoinChain(x, z, 0, index, length - 1);
    RemovePieces(f, last, index, count, Flatten(x), Flatten(z));
  }

  /** The content of a removal, assembled from the part before the window and the refill. */
  lemma RemovePieces<T>(f: seq<T>, last: T, index: int, count: int, fx: seq<T>, fz: seq<T>)
    requires 0 <= index && 0 <= count && index + count <= |f| && |f| > 0 && last == f[|f| - 1]
    requires fx == f[..index] && fz == f[index + count..] + Fill(last, count)
    ensures fx + fz == RemoveShift(f, index, count)
  {
    assert fx + fz == f[..index] + f[index + count..] + Fill(f[|f| - 1], count);
  }

  // ---------------------------------------------------------------------------------
  // GetRange

  /**
    The copy loop of `GetRange` on a collection tiling [0, hi]: the copied runs tile
    [0, end - start] and hold the content of the window [start, end].
  */
  lemma WindowRunsSpec<T>(runs: seq<Run<T>>, hi: int, start: int, end: int, hint: int)
    requires Chain(runs, 0, hi) && 0 <= start <= end <= hi
    ensures |Flatten(runs)| == hi + 1
    ensures Chain(WindowRuns(runs, start, end, hint), 0, end - start)
    ensures Flatten(WindowRuns(runs, start, end, hint)) == Flatten(runs)[start..end + 1]
    ensures Compressed(runs) ==> Compressed(WindowRuns(runs, start, end, hint))
  {
    LocateIgnoresHint(runs, 0, hi, start, hint);
    var k := Locate(runs, start, hint);
    assert WindowRuns(runs, start, end, hint) == ClipWindow(runs[k..], start, end);
    ClipFromRun(runs, hi, k, start, end);
  }

  /** Clipping from the run holding `start`. */
  lemma {:induction false} ClipFromRun<T>(runs: seq<Run<T>>, hi: int, k: int, start: int, end: int)
    requires Chain(runs, 0, hi) && 0 <= k < |runs| && Covers(runs[k], start) && 0 <= start <= end <= hi
    ensures |Flatten(runs)| == hi + 1
    ensures Chain(ClipWindow(runs[k..], start, end), 0, end - start)
    ensures Flatten(ClipWindow(runs[k..], start, end)) == Flatten(runs)[start..end + 1]
    ensures Compressed(runs) ==> Compressed(ClipWindow(runs[k..], start, end))
  {
    var tail := runs[k..];
    var f := Flatten(runs);
    TailOf(runs, hi, k, f);
    ClipFrom(tail, runs[k].start, hi, start, end, f);
    if Compressed(runs) {
      assert Compressed(tail);
      ClipWindowCompressed(tail, start, end);
    }
  }

  /** The runs from `k` on tile [runs[k].start, hi] and hold the content from there on. */
  lemma {:induction false} TailOf<T>(runs: seq<Run<T>>, hi: int, k: int, f: seq<T>)
    requires Chain(runs, 0, hi) && 0 <= k < |runs| && f == Flatten(runs)
    ensures |f| == hi + 1 && 0 <= runs[k].start <= hi
    ensures Chain(runs[k..], runs[k].start, hi) && Flatten(runs[k..]) == f[runs[k].start..]
  {
    ChainSplit(runs, 0, hi, k);
    FlattenSplit(runs, 0, hi, k);
    assert Mid(runs, 0, k) - 0 == runs[k].start;
  }

  /** Clipping a chain over [lo, hi] whose first run holds `start`. */
  lemma {:induction false} ClipFrom<T>(tail: seq<Run<T>>, lo: int, hi: int, start: int, end: int, f: seq<T>)
    requires Chain(tail, lo, hi) && |tail| > 0 && lo <= start <= tail[0].end && start <= end <= hi
    requires 0 <= lo && |f| == hi + 1 && Flatten(tail) == f[lo..]
    ensures Chain(ClipWindow(tail, start, end), 0, end - start)
    ensures Flatten(ClipWindow(tail, start, end)) == f[start..end + 1]
  {
    ClipWindowSpec(tail, lo, hi, start, end);
    var c := ClipWindow(tail, start, end);
    ClipFromParts(c, Flatten(tail), f, lo, start, end, Max(lo, start));
  }

  /** The clipped window, its bounds restated once `start` is known to be in the first run. */
  lemma ClipFromParts<T>(c: seq<Run<T>>, g: seq<T>, f: seq<T>, lo: int, start: int, end: int, m: int)
    requires m == start && 0 <= lo <= start <= end < |f| && g == f[lo..]
    requires Chain(c, m - start, end - start) && Flatten(c) == g[m - lo..end - lo + 1]
    ensures Chain(c, 0, end - start) && Flatten(c) == f[start..end + 1]
  {
    DropSlice(f, lo, start, end + 1);
  }

  /** A window of a suffix is a window of the whole. */
  lemma DropSlice<T>(f: seq<T>, lo: int, i: int, j: int)
    requires 0 <= lo <= i <= j <= |f|
    ensures f[lo..][i - lo..j - lo] == f[i..j]
  {
  }
}
