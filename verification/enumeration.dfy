/**
  Reading the collection run by run: counting matching values, enumerating the values,
  and the index enumerator, which walks from one index towards another and skips whole
  runs whose value does not match.
*/
module Enumeration {
  import opened Errors
  import opened Runs
  import opened RunAlgebra
  import opened Lookup
  import opened Store

  /** The number of values in `s` that satisfy `p`. */
  function Occurrences<T>(s: seq<T>, p: T -> bool): nat {
    if |s| == 0 then 0 else Occurrences(s[..|s| - 1], p) + (if p(s[|s| - 1]) then 1 else 0)
  }

  /** The test `Count(value)` applies: equality with `value`. */
  function EqualTo<T(==)>(value: T): T -> bool {
    x => x == value
  }

  lemma {:induction false} OccurrencesAppend<T>(a: seq<T>, b: seq<T>, p: T -> bool)
    ensures Occurrences(a + b, p) == Occurrences(a, p) + Occurrences(b, p)
    decreases |b|
  {
    if |b| > 0 {
      var n := |b| - 1;
      assert (a + b)[..|a + b| - 1] == a + b[..n];
      OccurrencesAppend(a, b[..n], p);
    } else {
      assert a + b == a;
    }
  }

  lemma {:induction false} OccurrencesFill<T>(v: T, n: nat, p: T -> bool)
    ensures Occurrences(Fill(v, n), p) == if p(v) then n else 0
  {
    if n > 0 {
      assert Fill(v, n)[..n - 1] == Fill(v, n - 1);
      OccurrencesFill(v, n - 1, p);
    }
  }

  /** The content of the first `i + 1` runs extends that of the first `i` by run `i`. */
  lemma FlattenPrefix<T>(runs: seq<Run<T>>, i: int)
    requires 0 <= i < |runs|
    ensures Flatten(runs[..i + 1]) == Flatten(runs[..i]) + Fill(runs[i].value, Size(runs[i]))
  {
    assert runs[..i + 1] == runs[..i] + [runs[i]];
    FlattenAppend(runs[..i], [runs[i]]);
    FlattenSingle(runs[i]);
  }

  /** `Count(match)`: the number of indices whose value satisfies `p`, summed run by run. */
  method CountWhere<T>(c: Collection<T>, p: T -> bool) returns (n: int)
    requires WellFormed(c)
    ensures n == Occurrences(Content(c), p)
  {
    n := 0;
    var i := 0;
    while i < |c.runs|
      invariant 0 <= i <= |c.runs|
      invariant n == Occurrences(Flatten(c.runs[..i]), p)
    {
      var item := c.runs[i];
      FlattenPrefix(c.runs, i);
      OccurrencesAppend(Flatten(c.runs[..i]), Fill(item.value, Size(item)), p);
      OccurrencesFill(item.value, Size(item), p);
      if p(item.value) {
        n := n + (item.end - item.start + 1);
      }
      i := i + 1;
    }
    assert c.runs[..i] == c.runs;
  }

  /** `Count(value)`: the number of indices holding `value`. */
  method Count<T(==)>(c: Collection<T>, value: T) returns (n: int)
    requires WellFormed(c)
    ensures n == Occurrences(Content(c), EqualTo(value))
    ensures n <= c.length
  {
    n := CountWhere(c, EqualTo(value));
    OccurrencesBound(Content(c), EqualTo(value));
  }

  lemma {:induction false} OccurrencesBound<T>(s: seq<T>, p: T -> bool)
    ensures Occurrences(s, p) <= |s|
  {
    if |s| > 0 {
      OccurrencesBound(s[..|s| - 1], p);
    }
  }

  /** The value enumerator: each run's value repeated over its indices, run after run. */
  method Values<T>(c: Collection<T>) returns (s: seq<T>)
    requires WellFormed(c)
    ensures s == Content(c)
  {
    s := [];
    var k := 0;
    while k < |c.runs|
      invariant 0 <= k <= |c.runs|
      invariant s == Flatten(c.runs[..k])
    {
      var item := c.runs[k];
      FlattenPrefix(c.runs, k);
      var i := item.start;
      ghost var before := s;
      while i <= item.end
        invariant item.start <= i <= item.end + 1
        invariant s == before + Fill(item.value, i - item.start)
      {
        s := s + [item.value];
        i := i + 1;
      }
      k := k + 1;
    }
    assert c.runs[..k] == c.runs;
  }

  // ---------------------------------------------------------------------------------
  // The index enumerator

  /** The indices in [lo, hi] whose value satisfies `p`, ascending. */
  function Ascending<T>(f: seq<T>, p: T -> bool, lo: int, hi: int): seq<int>
    requires 0 <= lo && hi < |f|
    decreases hi - lo
  {
    if hi < lo then [] else Ascending(f, p, lo, hi - 1) + (if p(f[hi]) then [hi] else [])
  }

  /** The indices in [lo, hi] whose value satisfies `p`, descending from `hi`. */
  function Descending<T>(f: seq<T>, p: T -> bool, hi: int, lo: int): seq<int>
    requires 0 <= lo && hi < |f|
    decreases hi - lo
  {
    if hi < lo then [] else Descending(f, p, hi, lo + 1) + (if p(f[lo]) then [lo] else [])
  }

  /** `Ascending` lists exactly the matching indices of its window, in increasing order. */
  lemma {:induction false} AscendingSpec<T>(f: seq<T>, p: T -> bool, lo: int, hi: int)
    requires 0 <= lo && hi < |f|
    ensures forall j :: j in Ascending(f, p, lo, hi) <==> lo <= j <= hi && p(f[j])
    ensures forall a, b :: 0 <= a < b < |Ascending(f, p, lo, hi)| ==> Ascending(f, p, lo, hi)[a] < Ascending(f, p, lo, hi)[b]
    decreases hi - lo
  {
    if hi >= lo {
      AscendingSpec(f, p, lo, hi - 1);
      var prev := Ascending(f, p, lo, hi - 1);
      var r := Ascending(f, p, lo, hi);
      assert r == prev + (if p(f[hi]) then [hi] else []);
      forall a, b | 0 <= a < b < |r|
        ensures r[a] < r[b]
      {
        if b == |prev| {
          assert r[a] == prev[a] && prev[a] in prev;
        }
      }
    }
  }

  /** `Descending` lists exactly the matching indices of its window, in decreasing order. */
  lemma {:induction false} DescendingSpec<T>(f: seq<T>, p: T -> bool, hi: int, lo: int)
    requires 0 <= lo && hi < |f|
    ensures forall j :: j in Descending(f, p, hi, lo) <==> lo <= j <= hi && p(f[j])
    ensures forall a, b :: 0 <= a < b < |Descending(f, p, hi, lo)| ==> Descending(f, p, hi, lo)[a] > Descending(f, p, hi, lo)[b]
    decreases hi - lo
  {
    if hi >= lo {
      DescendingSpec(f, p, hi, lo + 1);
      var prev := Descending(f, p, hi, lo + 1);
      var r := Descending(f, p, hi, lo);
      assert r == prev + (if p(f[lo]) then [lo] else []);
      forall a, b | 0 <= a < b < |r|
        ensures r[a] > r[b]
      {
        if b == |prev| {
          assert r[a] == prev[a] && prev[a] in prev;
        }
      }
    }
  }

  /** Every index of run `k` holds the run's value. */
  lemma RunValues<T>(runs: seq<Run<T>>, hi: int, k: int)
    requires Chain(runs, 0, hi) && 0 <= k < |runs|
    ensures |Flatten(runs)| == hi + 1
    ensures 0 <= runs[k].start && runs[k].end <= hi
    ensures forall j :: runs[k].start <= j <= runs[k].end ==> Flatten(runs)[j] == runs[k].value
  {
    ChainLength(runs, 0, hi);
    ValueAtZero(runs, hi, k, runs[k].start);
    ValueAtZero(runs, hi, k, runs[k].end);
    forall j | runs[k].start <= j <= runs[k].end
      ensures Flatten(runs)[j] == runs[k].value
    {
      ValueAtZero(runs, hi, k, j);
    }
  }

  /** Skipping run `k` forward: its indices do not match, and the next index starts run k + 1. */
  lemma {:induction false} SkipForward<T>(runs: seq<Run<T>>, hi: int, f: seq<T>, p: T -> bool, k: int, current: int, next: int)
    requires Chain(runs, 0, hi) && f == Flatten(runs) && 0 <= k < |runs|
    requires Covers(runs[k], next) && current < next && !p(runs[k].value)
    requires |f| == hi + 1 && forall j :: current < j < next && 0 <= j < |f| ==> !p(f[j])
    ensures forall j :: current < j < runs[k].end + 1 && 0 <= j < |f| ==> !p(f[j])
    ensures runs[k].end + 1 <= hi ==> k + 1 < |runs| && Covers(runs[k + 1], runs[k].end + 1)
  {
    RunValues(runs, hi, k);
  }

  /** Skipping run `k` backward: its indices do not match, and the previous index ends run k - 1. */
  lemma {:induction false} SkipBackward<T>(runs: seq<Run<T>>, hi: int, f: seq<T>, p: T -> bool, k: int, current: int, next: int)
    requires Chain(runs, 0, hi) && f == Flatten(runs) && 0 <= k < |runs|
    requires Covers(runs[k], next) && next < current && !p(runs[k].value)
    requires |f| == hi + 1 && forall j :: next < j < current && 0 <= j < |f| ==> !p(f[j])
    ensures forall j :: runs[k].start - 1 < j < current && 0 <= j < |f| ==> !p(f[j])
    ensures runs[k].start - 1 >= 0 ==> k > 0 && Covers(runs[k - 1], runs[k].start - 1)
  {
    RunValues(runs, hi, k);
  }

  /**
    From run `k`, which covers `next`, skip forward over whole runs whose value does not
    match, until a matching run is reached or `end` is passed.
  */
  method ScanForward<T>(runs: seq<Run<T>>, hi: int, f: seq<T>, p: T -> bool, k: int, current: int, next: int, end: int)
    returns (found: bool, at: int)
    requires Chain(runs, 0, hi) && f == Flatten(runs) && |f| == hi + 1 && -1 <= current && end <= hi
    requires 0 <= k < |runs| && Covers(runs[k], next) && current < next <= end
    requires forall j :: current < j < next && 0 <= j < |f| ==> !p(f[j])
    ensures found ==> current < at <= end && p(f[at])
    ensures forall j :: current < j <= end && (!found || j < at) && 0 <= j < |f| ==> !p(f[j])
  {
    var i := k;
    at := next;
    while !p(runs[i].value)
      invariant 0 <= i < |runs| && Covers(runs[i], at) && current < at <= end
      invariant forall j :: current < j < at && 0 <= j < |f| ==> !p(f[j])
      decreases |runs| - i
    {
      SkipForward(runs, hi, f, p, i, current, at);
      at := runs[i].end + 1;
      if at > end {
        return false, at;
      }
      i := i + 1;
    }
    RunValues(runs, hi, i);
    found := true;
  }

  /**
    From run `k`, which covers `next`, skip backward over whole runs whose value does not
    match, until a matching run is reached or `end` is passed.
  */
  method ScanBackward<T>(runs: seq<Run<T>>, hi: int, f: seq<T>, p: T -> bool, k: int, current: int, next: int, end: int)
    returns (found: bool, at: int)
    requires Chain(runs, 0, hi) && f == Flatten(runs) && |f| == hi + 1 && 0 <= end && current <= hi + 1
    requires 0 <= k < |runs| && Covers(runs[k], next) && end <= next < current
    requires forall j :: next < j < current && 0 <= j < |f| ==> !p(f[j])
    ensures found ==> end <= at < current && p(f[at])
    ensures forall j :: end <= j < current && (!found || j > at) && 0 <= j < |f| ==> !p(f[j])
  {
    var i := k;
    at := next;
    while !p(runs[i].value)
      invariant 0 <= i < |runs| && Covers(runs[i], at) && end <= at < current
      invariant forall j :: at < j < current && 0 <= j < |f| ==> !p(f[j])
      decreases i
    {
      SkipBackward(runs, hi, f, p, i, current, at);
      at := runs[i].start - 1;
      if at < end {
        return false, at;
      }
      i := i - 1;
    }
    RunValues(runs, hi, i);
    found := true;
  }

  /**
    `MoveNext` walking forward: step to the next index, then skip whole runs whose value
    does not match until a matching run is reached or `end` is passed.
  */
  method MoveNextForward<T>(c: Collection<T>, p: T -> bool, current: int, end: int) returns (found: bool, next: int)
    requires WellFormed(c) && -1 <= current && end < c.length
    ensures found ==> current < next <= end && p(Content(c)[next])
    ensures forall j :: current < j <= end && (!found || j < next) ==> !p(Content(c)[j])
  {
    next := current + 1;
    if next > end {
      return false, next;
    }
    var k := ItemIndex(c, next);
    found, next := ScanForward(c.runs, c.length - 1, Content(c), p, k, current, next, end);
  }

  /**
    `MoveNext` walking backward: step to the previous index, then skip whole runs whose
    value does not match until a matching run is reached or `end` is passed.
  */
  method MoveNextBackward<T>(c: Collection<T>, p: T -> bool, current: int, end: int) returns (found: bool, next: int)
    requires WellFormed(c) && current <= c.length && 0 <= end
    ensures found ==> end <= next < current && p(Content(c)[next])
    ensures forall j :: end <= j < current && (!found || j > next) ==> !p(Content(c)[j])
  {
    next := current - 1;
    if next < end {
      return false, next;
    }
    var k := ItemIndex(c, next);
    found, next := ScanBackward(c.runs, c.length - 1, Content(c), p, k, current, next, end);
  }

  /** Widening the window over indices that do not match adds nothing. */
  lemma {:induction false} AscendingSkip<T>(f: seq<T>, p: T -> bool, lo: int, a: int, b: int)
    requires 0 <= lo && lo - 1 <= a <= b < |f|
    requires forall j :: a < j <= b ==> !p(f[j])
    ensures Ascending(f, p, lo, b) == Ascending(f, p, lo, a)
    decreases b - a
  {
    if a < b {
      AscendingSkip(f, p, lo, a, b - 1);
    }
  }

  /** Widening the window downward over indices that do not match adds nothing. */
  lemma {:induction false} DescendingSkip<T>(f: seq<T>, p: T -> bool, hi: int, a: int, b: int)
    requires 0 <= b <= a <= hi + 1 && hi < |f|
    requires forall j :: b <= j < a ==> !p(f[j])
    ensures Descending(f, p, hi, b) == Descending(f, p, hi, a)
    decreases a - b
  {
    if b < a {
      DescendingSkip(f, p, hi, a, b + 1);
    }
  }

  /**
    The index enumerator over [start, end]: both ends are checked before anything is
    enumerated; then `MoveNext` is called until it fails, walking forward when
    start <= end and backward otherwise, and the indices it stops at are collected.
  */
  method IndexWalk<T>(c: Collection<T>, p: T -> bool, start: int, end: int) returns (r: Result<seq<int>>)
    requires WellFormed(c)
    ensures r.Err? <==> !(0 <= start < c.length && 0 <= end < c.length)
    ensures r.Err? ==> r.error == IndexOutOfRange
    ensures r.Ok? && start <= end ==> r.value == Ascending(Content(c), p, start, end)
    ensures r.Ok? && start > end ==> r.value == Descending(Content(c), p, start, end)
  {
    if CheckIndex(c.length, start).Fail? || CheckIndex(c.length, end).Fail? {
      return Err(IndexOutOfRange);
    }
    var f := Content(c);
    var out: seq<int> := [];
    if start <= end {
      var current := start - 1;
      while true
        invariant start - 1 <= current <= end
        invariant out == Ascending(f, p, start, current)
        decreases end - current
      {
        var found, next := MoveNextForward(c, p, current, end);
        if !found {
          AscendingSkip(f, p, start, current, end);
          return Ok(out);
        }
        AscendingSkip(f, p, start, current, next - 1);
        out := out + [next];
        current := next;
      }
    } else {
      var current := start + 1;
      while true
        invariant end <= current <= start + 1
        invariant out == Descending(f, p, start, current)
        decreases current - end
      {
        var found, next := MoveNextBackward(c, p, current, end);
        if !found {
          DescendingSkip(f, p, start, current, end);
          return Ok(out);
        }
        DescendingSkip(f, p, start, current, next + 1);
        out := out + [next];
        current := next;
      }
    }
  }

  /** `GetIndexEnumerable(match, reversed)`: the whole collection, backward when reversed. */
  method IndexWalkAll<T>(c: Collection<T>, p: T -> bool, reversed: bool) returns (r: seq<int>)
    requires WellFormed(c)
    ensures forall j :: j in r <==> 0 <= j < c.length && p(Content(c)[j])
    ensures forall a, b :: 0 <= a < b < |r| ==> (if reversed then r[a] > r[b] else r[a] < r[b])
  {
    var walk;
    if reversed {
      walk := IndexWalk(c, p, c.length - 1, 0);
      if c.length - 1 > 0 {
        DescendingSpec(Content(c), p, c.length - 1, 0);
      } else {
        AscendingSpec(Content(c), p, 0, 0);
        assert Descending(Content(c), p, 0, 0) == Ascending(Content(c), p, 0, 0);
      }
    } else {
      walk := IndexWalk(c, p, 0, c.length - 1);
      AscendingSpec(Content(c), p, 0, c.length - 1);
    }
    r := walk.value;
  }

  /** `GetIndexEnumerable(value, start, end)`: the walk for indices holding `value`. */
  method ValueIndexWalk<T(==)>(c: Collection<T>, value: T, start: int, end: int) returns (r: Result<seq<int>>)
    requires WellFormed(c)
    ensures r.Err? <==> !(0 <= start < c.length && 0 <= end < c.length)
    ensures r.Ok? ==> forall j :: j in r.value <==> Min(start, end) <= j <= Max(start, end) && Content(c)[j] == value
  {
    r := IndexWalk(c, EqualTo(value), start, end);
    if r.Ok? {
      if start <= end {
        AscendingSpec(Content(c), EqualTo(value), start, end);
      } else {
        DescendingSpec(Content(c), EqualTo(value), start, end);
      }
    }
  }
}
