/**
  The scanner: every maximal run of set cells in a row (or a column) becomes a one-row
  (one-column) rectangle. Both scans walk one line at a time with a flag that says
  whether a run is open and where it started; that walk is `ScanLine`.
*/
module Scanning {
  import opened Grid
  import opened Rects

  /** A run of set cells inside one line, from `start` to `end` inclusive. */
  datatype Span = Span(start: int, end: int)

  /** `s` is a maximal run of set cells of `line`. */
  predicate MaximalSpan(line: seq<bool>, s: Span) {
    && 0 <= s.start <= s.end < |line|
    && (forall x :: s.start <= x <= s.end ==> line[x])
    && (s.start == 0 || !line[s.start - 1])
    && (s.end == |line| - 1 || !line[s.end + 1])
  }

  /** Some span of `spans` holds position k. */
  predicate InSpans(spans: seq<Span>, k: int) {
    exists i :: 0 <= i < |spans| && spans[i].start <= k <= spans[i].end
  }

  /** Every span is maximal, they come left to right, and together they cover every set cell. */
  predicate LineScan(line: seq<bool>, spans: seq<Span>) {
    && (forall i :: 0 <= i < |spans| ==> MaximalSpan(line, spans[i]))
    && (forall i, j :: 0 <= i < j < |spans| ==> spans[i].end + 1 < spans[j].start)
    && (forall x :: 0 <= x < |line| && line[x] ==> InSpans(spans, x))
  }

  /**
    The flag walk over `line` from position `x`, as a function: `open` says whether a run
    is open and `start` where it began; `spans` holds the runs closed so far.
  */
  function Walk(line: seq<bool>, x: int, open: bool, start: int, spans: seq<Span>): seq<Span>
    requires 0 <= x <= |line|
    decreases |line| - x
  {
    if x == |line| then
      if open then spans + [Span(start, |line| - 1)] else spans
    else if open && !line[x] then Walk(line, x + 1, false, start, spans + [Span(start, x - 1)])
    else if !open && line[x] then Walk(line, x + 1, true, x, spans)
    else Walk(line, x + 1, open, start, spans)
  }

  /** The spans the walk finds in a whole line. */
  function LineSpans(line: seq<bool>): seq<Span> {
    Walk(line, 0, false, 0, [])
  }

  /** The inner loop of both scans: open a run at a set cell, close it before a clear one. */
  method ScanLine(line: seq<bool>) returns (spans: seq<Span>)
    ensures spans == LineSpans(line)
    ensures LineScan(line, spans)
  {
    spans := [];
    var flag := false;
    var start := 0;
    var x := 0;
    while x < |line|
      invariant 0 <= x <= |line|
      invariant Walk(line, x, flag, start, spans) == LineSpans(line)
      invariant flag ==> 0 <= start < x && (forall k :: start <= k < x ==> line[k]) && (start == 0 || !line[start - 1])
      invariant !flag ==> x == 0 || !line[x - 1]
      invariant forall i :: 0 <= i < |spans| ==> MaximalSpan(line, spans[i]) && spans[i].end + 1 < x
      invariant forall i, j :: 0 <= i < j < |spans| ==> spans[i].end + 1 < spans[j].start
      invariant flag ==> forall i :: 0 <= i < |spans| ==> spans[i].end + 1 < start
      invariant forall k :: 0 <= k < x && line[k] ==>
        (flag && start <= k) || InSpans(spans, k)
    {
      if flag {
        if !line[x] {
          flag := false;
          Close(line, spans, start, x);
          spans := spans + [Span(start, x - 1)];
        }
      } else {
        if line[x] {
          flag := true;
          start := x;
        }
      }
      x := x + 1;
    }
    if flag {
      Close(line, spans, start, |line|);
      spans := spans + [Span(start, |line| - 1)];
    }
  }

  /** Closing the open run [start, x - 1] covers every set cell it held. */
  lemma {:induction false} Close(line: seq<bool>, spans: seq<Span>, start: int, x: int)
    requires 0 <= start < x <= |line|
    requires forall k :: 0 <= k < x && line[k] ==> start <= k || InSpans(spans, k)
    ensures forall k :: 0 <= k < x && line[k] ==> InSpans(spans + [Span(start, x - 1)], k)
  {
    var t := spans + [Span(start, x - 1)];
    forall k | 0 <= k < x && line[k]
      ensures InSpans(t, k)
    {
      if start <= k {
        assert t[|spans|].start <= k <= t[|spans|].end;
      } else {
        var i :| 0 <= i < |spans| && spans[i].start <= k <= spans[i].end;
        assert t[i] == spans[i];
      }
    }
  }

  function Row(a: CellArray, y: int): (line: seq<bool>)
    requires Valid(a) && 0 <= y < a.height
    ensures |line| == a.width
    ensures forall x :: 0 <= x < a.width ==> line[x] == Cell(a, x, y)
  {
    seq(a.width, x requires 0 <= x < a.width => Cell(a, x, y))
  }

  function Column(a: CellArray, x: int): (line: seq<bool>)
    requires Valid(a) && 0 <= x < a.width
    ensures |line| == a.height
    ensures forall y :: 0 <= y < a.height ==> line[y] == Cell(a, x, y)
  {
    seq(a.height, y requires 0 <= y < a.height => Cell(a, x, y))
  }

  /** A one-row rectangle that is a maximal run of set cells of its row. */
  predicate RowRun(a: CellArray, r: CellRect)
    requires Valid(a)
  {
    && r.top == r.bottom && 0 <= r.top < a.height
    && MaximalSpan(Row(a, r.top), Span(r.left, r.right))
  }

  /** A one-column rectangle that is a maximal run of set cells of its column. */
  predicate ColumnRun(a: CellArray, r: CellRect)
    requires Valid(a)
  {
    && r.left == r.right && 0 <= r.left < a.width
    && MaximalSpan(Column(a, r.left), Span(r.top, r.bottom))
  }

  /** The spans of row y, as one-row rectangles. */
  function RowRects(spans: seq<Span>, y: int): (rects: seq<CellRect>)
    ensures |rects| == |spans|
    ensures forall k :: 0 <= k < |spans| ==> rects[k] == CellRect(spans[k].start, y, spans[k].end, y)
  {
    seq(|spans|, k requires 0 <= k < |spans| => CellRect(spans[k].start, y, spans[k].end, y))
  }

  /** The spans of column x, as one-column rectangles. */
  function ColumnRects(spans: seq<Span>, x: int): (rects: seq<CellRect>)
    ensures |rects| == |spans|
    ensures forall k :: 0 <= k < |spans| ==> rects[k] == CellRect(x, spans[k].start, x, spans[k].end)
  {
    seq(|spans|, k requires 0 <= k < |spans| => CellRect(x, spans[k].start, x, spans[k].end))
  }

  /** Some rectangle of `rects` contains cell (x, y). */
  predicate Covered(rects: seq<CellRect>, x: int, y: int) {
    exists i :: 0 <= i < |rects| && Contains(rects[i], x, y)
  }

  /** No two rectangles of `rects` share a cell. */
  predicate PairwiseDisjoint(rects: seq<CellRect>) {
    forall i, j :: 0 <= i < j < |rects| ==> Disjoint(rects[i], rects[j])
  }

  /** The two sequences cover the same cells. */
  ghost predicate SameCover(rects: seq<CellRect>, other: seq<CellRect>) {
    forall x, y :: Covered(rects, x, y) <==> Covered(other, x, y)
  }

  /** Two maximal runs of one line either start together or do not meet. */
  lemma {:induction false} MaximalSpansApart(line: seq<bool>, s: Span, t: Span)
    requires MaximalSpan(line, s) && MaximalSpan(line, t) && s.start < t.start
    ensures s.end < t.start
  {
  }

  /** `Covered` by index and by membership agree. */
  lemma {:induction false} CoveredIn(rects: seq<CellRect>, x: int, y: int)
    ensures Covered(rects, x, y) <==> exists r :: r in rects && Contains(r, x, y)
  {
    if exists r :: r in rects && Contains(r, x, y) {
      var r :| r in rects && Contains(r, x, y);
      var i :| 0 <= i < |rects| && rects[i] == r;
    }
  }

  /** The runs of rows 0 to y - 1, row by row, as the row scan yields them. */
  function RowsScanned(a: CellArray, y: int): seq<CellRect>
    requires Valid(a) && 0 <= y <= a.height
  {
    if y == 0 then [] else RowsScanned(a, y - 1) + RowRects(LineSpans(Row(a, y - 1)), y - 1)
  }

  /** The runs of columns 0 to x - 1, column by column, as the column scan yields them. */
  function ColumnsScanned(a: CellArray, x: int): seq<CellRect>
    requires Valid(a) && 0 <= x <= a.width
  {
    if x == 0 then [] else ColumnsScanned(a, x - 1) + ColumnRects(LineSpans(Column(a, x - 1)), x - 1)
  }

  /**
    The row scan after rows 0 to y - 1: the runs so far are those rows' maximal runs in
    scanner order, and they cover every set cell above row y.
  */
  predicate RowsSoFar(a: CellArray, y: int, rects: seq<CellRect>)
    requires Valid(a)
  {
    && 0 <= y <= a.height
    && rects == RowsScanned(a, y)
    && (forall i :: 0 <= i < |rects| ==> RowRun(a, rects[i]) && rects[i].top < y)
    && (forall i, j :: 0 <= i < j < |rects| ==>
         rects[i].top < rects[j].top || (rects[i].top == rects[j].top && rects[i].right + 1 < rects[j].left))
    && (forall x, y' :: 0 <= x < a.width && 0 <= y' < y && Cell(a, x, y') ==> Covered(rects, x, y'))
  }

  /** The column scan after columns 0 to x - 1, the transpose of `RowsSoFar`. */
  predicate ColumnsSoFar(a: CellArray, x: int, rects: seq<CellRect>)
    requires Valid(a)
  {
    && 0 <= x <= a.width
    && rects == ColumnsScanned(a, x)
    && (forall i :: 0 <= i < |rects| ==> ColumnRun(a, rects[i]) && rects[i].left < x)
    && (forall i, j :: 0 <= i < j < |rects| ==>
         rects[i].left < rects[j].left || (rects[i].left == rects[j].left && rects[i].bottom + 1 < rects[j].top))
    && (forall x', y :: 0 <= x' < x && 0 <= y < a.height && Cell(a, x', y) ==> Covered(rects, x', y))
  }

  /**
    `ScanByRows`: the maximal row runs, by row and then left to right, covering every
    set cell of the grid.
  */
  method ScanByRows(a: CellArray) returns (rects: seq<CellRect>)
    requires Valid(a)
    ensures rects == RowsScanned(a, a.height)
    ensures forall i :: 0 <= i < |rects| ==> RowRun(a, rects[i])
    ensures forall i, j :: 0 <= i < j < |rects| ==>
      rects[i].top < rects[j].top || (rects[i].top == rects[j].top && rects[i].right + 1 < rects[j].left)
    ensures forall x, y :: InGrid(a, x, y) && Cell(a, x, y) ==> Covered(rects, x, y)
  {
    rects := [];
    var y := 0;
    while y < a.height
      invariant RowsSoFar(a, y, rects)
    {
      var spans := ScanLine(Row(a, y));
      RowStep(a, y, rects, spans);
      rects := rects + RowRects(spans, y);
      y := y + 1;
    }
  }

  /** `ScanByColumns`: the transpose of `ScanByRows`, column by column and then top down. */
  method ScanByColumns(a: CellArray) returns (rects: seq<CellRect>)
    requires Valid(a)
    ensures rects == ColumnsScanned(a, a.width)
    ensures forall i :: 0 <= i < |rects| ==> ColumnRun(a, rects[i])
    ensures forall i, j :: 0 <= i < j < |rects| ==>
      rects[i].left < rects[j].left || (rects[i].left == rects[j].left && rects[i].bottom + 1 < rects[j].top)
    ensures forall x, y :: InGrid(a, x, y) && Cell(a, x, y) ==> Covered(rects, x, y)
  {
    rects := [];
    var x := 0;
    while x < a.width
      invariant ColumnsSoFar(a, x, rects)
    {
      var spans := ScanLine(Column(a, x));
      ColumnStep(a, x, rects, spans);
      rects := rects + ColumnRects(spans, x);
      x := x + 1;
    }
  }

  /** Appending the runs of row y keeps the row scan's state, now up to row y. */
  lemma {:induction false} RowStep(a: CellArray, y: int, rects: seq<CellRect>, spans: seq<Span>)
    requires Valid(a) && 0 <= y < a.height && spans == LineSpans(Row(a, y)) && LineScan(Row(a, y), spans)
    requires RowsSoFar(a, y, rects)
    ensures RowsSoFar(a, y + 1, rects + RowRects(spans, y))
  {
    assert RowsScanned(a, y + 1) == rects + RowRects(spans, y);
    RowStepRuns(a, y, rects, spans);
    RowStepOrder(a, y, rects, spans);
    RowStepCover(a, y, rects, spans);
  }

  lemma {:induction false} RowStepRuns(a: CellArray, y: int, rects: seq<CellRect>, spans: seq<Span>)
    requires Valid(a) && 0 <= y < a.height && LineScan(Row(a, y), spans)
    requires forall i :: 0 <= i < |rects| ==> RowRun(a, rects[i]) && rects[i].top < y
    ensures var t := rects + RowRects(spans, y);
      forall i :: 0 <= i < |t| ==> RowRun(a, t[i]) && t[i].top < y + 1
  {
    var line := RowRects(spans, y);
    var t := rects + line;
    forall i | 0 <= i < |t|
      ensures RowRun(a, t[i]) && t[i].top < y + 1
    {
      if i >= |rects| {
        assert t[i] == line[i - |rects|];
      } else {
        assert t[i] == rects[i];
      }
    }
  }

  lemma {:induction false} RowStepOrder(a: CellArray, y: int, rects: seq<CellRect>, spans: seq<Span>)
    requires forall i, j :: 0 <= i < j < |spans| ==> spans[i].end + 1 < spans[j].start
    requires forall i :: 0 <= i < |rects| ==> rects[i].top < y
    requires forall i, j :: 0 <= i < j < |rects| ==>
      rects[i].top < rects[j].top || (rects[i].top == rects[j].top && rects[i].right + 1 < rects[j].left)
    ensures var t := rects + RowRects(spans, y);
      forall i, j :: 0 <= i < j < |t| ==>
        t[i].top < t[j].top || (t[i].top == t[j].top && t[i].right + 1 < t[j].left)
  {
    var line := RowRects(spans, y);
    var t := rects + line;
    forall i, j | 0 <= i < j < |t|
      ensures t[i].top < t[j].top || (t[i].top == t[j].top && t[i].right + 1 < t[j].left)
    {
      if j < |rects| {
        assert t[i] == rects[i] && t[j] == rects[j];
      } else if i < |rects| {
        assert t[i] == rects[i] && t[j] == line[j - |rects|];
      } else {
        assert t[i] == line[i - |rects|] && t[j] == line[j - |rects|];
      }
    }
  }

  lemma {:induction false} RowStepCover(a: CellArray, y: int, rects: seq<CellRect>, spans: seq<Span>)
    requires Valid(a) && 0 <= y < a.height && LineScan(Row(a, y), spans)
    requires forall x, y' :: 0 <= x < a.width && 0 <= y' < y && Cell(a, x, y') ==> Covered(rects, x, y')
    ensures var t := rects + RowRects(spans, y);
      forall x, y' :: 0 <= x < a.width && 0 <= y' < y + 1 && Cell(a, x, y') ==> Covered(t, x, y')
  {
    var line := RowRects(spans, y);
    var t := rects + line;
    forall x, y' | 0 <= x < a.width && 0 <= y' < y + 1 && Cell(a, x, y')
      ensures Covered(t, x, y')
    {
      if y' == y {
        assert Row(a, y)[x];
        var k :| 0 <= k < |spans| && spans[k].start <= x <= spans[k].end;
        assert t[|rects| + k] == line[k];
        assert Contains(t[|rects| + k], x, y);
      } else {
        var i :| 0 <= i < |rects| && Contains(rects[i], x, y');
        assert t[i] == rects[i];
      }
    }
  }

  /** Appending the runs of column x keeps the column scan's state, now up to column x. */
  lemma {:induction false} ColumnStep(a: CellArray, x: int, rects: seq<CellRect>, spans: seq<Span>)
    requires Valid(a) && 0 <= x < a.width && spans == LineSpans(Column(a, x)) && LineScan(Column(a, x), spans)
    requires ColumnsSoFar(a, x, rects)
    ensures ColumnsSoFar(a, x + 1, rects + ColumnRects(spans, x))
  {
    assert ColumnsScanned(a, x + 1) == rects + ColumnRects(spans, x);
    ColumnStepRuns(a, x, rects, spans);
    ColumnStepOrder(a, x, rects, spans);
    ColumnStepCover(a, x, rects, spans);
  }

  lemma {:induction false} ColumnStepRuns(a: CellArray, x: int, rects: seq<CellRect>, spans: seq<Span>)
    requires Valid(a) && 0 <= x < a.width && LineScan(Column(a, x), spans)
    requires forall i :: 0 <= i < |rects| ==> ColumnRun(a, rects[i]) && rects[i].left < x
    ensures var t := rects + ColumnRects(spans, x);
      forall i :: 0 <= i < |t| ==> ColumnRun(a, t[i]) && t[i].left < x + 1
  {
    var line := ColumnRects(spans, x);
    var t := rects + line;
    forall i | 0 <= i < |t|
      ensures ColumnRun(a, t[i]) && t[i].left < x + 1
    {
      if i >= |rects| {
        assert t[i] == line[i - |rects|];
      } else {
        assert t[i] == rects[i];
      }
    }
  }

  lemma {:induction false} ColumnStepOrder(a: CellArray, x: int, rects: seq<CellRect>, spans: seq<Span>)
    requires forall i, j :: 0 <= i < j < |spans| ==> spans[i].end + 1 < spans[j].start
    requires forall i :: 0 <= i < |rects| ==> rects[i].left < x
    requires forall i, j :: 0 <= i < j < |rects| ==>
      rects[i].left < rects[j].left || (rects[i].left == rects[j].left && rects[i].bottom + 1 < rects[j].top)
    ensures var t := rects + ColumnRects(spans, x);
      forall i, j :: 0 <= i < j < |t| ==>
        t[i].left < t[j].left || (t[i].left == t[j].left && t[i].bottom + 1 < t[j].top)
  {
    var line := ColumnRects(spans, x);
    var t := rects + line;
    forall i, j | 0 <= i < j < |t|
      ensures t[i].left < t[j].left || (t[i].left == t[j].left && t[i].bottom + 1 < t[j].top)
    {
      if j < |rects| {
        assert t[i] == rects[i] && t[j] == rects[j];
      } else if i < |rects| {
        assert t[i] == rects[i] && t[j] == line[j - |rects|];
      } else {
        assert t[i] == line[i - |rects|] && t[j] == line[j - |rects|];
      }
    }
  }

  lemma {:induction false} ColumnStepCover(a: CellArray, x: int, rects: seq<CellRect>, spans: seq<Span>)
    requires Valid(a) && 0 <= x < a.width && LineScan(Column(a, x), spans)
    requires forall x', y :: 0 <= x' < x && 0 <= y < a.height && Cell(a, x', y) ==> Covered(rects, x', y)
    ensures var t := rects + ColumnRects(spans, x);
      forall x', y :: 0 <= x' < x + 1 && 0 <= y < a.height && Cell(a, x', y) ==> Covered(t, x', y)
  {
    var line := ColumnRects(spans, x);
    var t := rects + line;
    forall x', y | 0 <= x' < x + 1 && 0 <= y < a.height && Cell(a, x', y)
      ensures Covered(t, x', y)
    {
      if x' == x {
        assert Column(a, x)[y];
        var k :| 0 <= k < |spans| && spans[k].start <= y <= spans[k].end;
        assert t[|rects| + k] == line[k];
        assert Contains(t[|rects| + k], x, y);
      } else {
        var i :| 0 <= i < |rects| && Contains(rects[i], x', y);
        assert t[i] == rects[i];
      }
    }
  }
}
