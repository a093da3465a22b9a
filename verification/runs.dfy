/**
  The run list of a run-length-compressed sequence and its meaning.

  A run holds one value over the absolute index range [start, end]. A run list
  `Chain`s over [lo, hi] when its runs tile that range in order with no gap, and it
  is `Compressed` when no two neighbouring runs hold equal values. `Flatten` is the
  plain sequence a run list stands for, the same sequence the collection's value
  enumerator yields.
*/
module Runs {

  datatype Run<T> = Run(value: T, start: int, end: int)

  /** Number of indices a run covers; the source's `Count` of a well-formed run. */
  function Size<T>(r: Run<T>): nat {
    if r.start <= r.end then r.end - r.start + 1 else 0
  }

  predicate Covers<T>(r: Run<T>, i: int) {
    r.start <= i <= r.end
  }

  function Fill<T>(v: T, n: nat): seq<T> {
    seq(n, _ => v)
  }

  function Flatten<T>(runs: seq<Run<T>>): seq<T> {
    if |runs| == 0 then [] else Fill(runs[0].value, Size(runs[0])) + Flatten(runs[1..])
  }

  /** One unfolding of `Flatten`: the first run's block, then the rest. */
  lemma FlattenHead<T>(runs: seq<Run<T>>)
    requires |runs| > 0
    ensures Flatten(runs) == Fill(runs[0].value, Size(runs[0])) + Flatten(runs[1..])
  {
  }

  lemma FillAppend<T>(v: T, m: nat, n: nat)
    ensures Fill(v, m + n) == Fill(v, m) + Fill(v, n)
  {
  }

  lemma FillSlice<T>(v: T, n: nat, i: int, j: int)
    requires 0 <= i <= j <= n
    ensures Fill(v, n)[i..j] == Fill(v, j - i)
  {
  }

  /** A slice across the seam of a concatenation is a suffix of the left joined to a prefix of the right. */
  lemma SliceAcross<T>(x: seq<T>, y: seq<T>, i: int, j: int)
    requires 0 <= i <= |x| <= j <= |x| + |y|
    ensures (x + y)[i..j] == x[i..] + y[..j - |x|]
  {
  }

  lemma FlattenSingle<T>(r: Run<T>)
    ensures Flatten([r]) == Fill(r.value, Size(r))
  {
    assert [r][1..] == [];
  }

  /** `runs` tile [lo, hi] in ascending order without gaps; an empty list tiles [lo, lo - 1]. */
  predicate Chain<T>(runs: seq<Run<T>>, lo: int, hi: int) {
    && (|runs| == 0 ==> hi == lo - 1)
    && (|runs| > 0 ==> runs[0].start == lo && runs[|runs| - 1].end == hi)
    && (forall k :: 0 <= k < |runs| ==> runs[k].start <= runs[k].end)
    && (forall k :: 0 < k < |runs| ==> runs[k - 1].end + 1 == runs[k].start)
  }

  /** No two neighbouring runs hold equal values (maximal compression). */
  predicate Compressed<T(==)>(runs: seq<Run<T>>) {
    forall k :: 0 < k < |runs| ==> runs[k - 1].value != runs[k].value
  }

  /** The first index at or after the runs before position `p` of a list chaining from `lo`. */
  function Mid<T>(runs: seq<Run<T>>, lo: int, p: int): int
    requires 0 <= p <= |runs|
  {
    if p == 0 then lo else runs[p - 1].end + 1
  }

  lemma {:induction false} FlattenAppend<T>(a: seq<Run<T>>, b: seq<Run<T>>)
    ensures Flatten(a + b) == Flatten(a) + Flatten(b)
  {
    if |a| == 0 {
      assert a + b == b;
    } else {
      assert (a + b)[1..] == a[1..] + b;
      FlattenAppend(a[1..], b);
    }
  }

  lemma ChainTail<T>(runs: seq<Run<T>>, lo: int, hi: int)
    requires Chain(runs, lo, hi) && |runs| > 0
    ensures Chain(runs[1..], runs[0].end + 1, hi)
  {
  }

  lemma {:induction false} ChainLength<T>(runs: seq<Run<T>>, lo: int, hi: int)
    requires Chain(runs, lo, hi)
    ensures |Flatten(runs)| == hi - lo + 1
    decreases |runs|
  {
    if |runs| > 0 {
      ChainTail(runs, lo, hi);
      ChainLength(runs[1..], runs[0].end + 1, hi);
    }
  }

  lemma ChainAppend<T>(a: seq<Run<T>>, b: seq<Run<T>>, lo: int, mid: int, hi: int)
    requires Chain(a, lo, mid - 1) && Chain(b, mid, hi)
    ensures Chain(a + b, lo, hi)
  {
    var c := a + b;
    forall k | 0 < k < |c|
      ensures c[k - 1].end + 1 == c[k].start
    {
      if k < |a| {
      } else if k == |a| {
      } else {
        assert c[k - 1] == b[k - 1 - |a|] && c[k] == b[k - |a|];
      }
    }
  }

  /** Splitting a chain at position `p` gives two chains meeting at `Mid(runs, lo, p)`. */
  lemma ChainSplit<T>(runs: seq<Run<T>>, lo: int, hi: int, p: int)
    requires Chain(runs, lo, hi) && 0 <= p <= |runs|
    ensures Chain(runs[..p], lo, Mid(runs, lo, p) - 1)
    ensures Chain(runs[p..], Mid(runs, lo, p), hi)
    ensures p < |runs| ==> runs[p].start == Mid(runs, lo, p)
  {
    var b := runs[p..];
    forall k | 0 < k < |b|
      ensures b[k - 1].end + 1 == b[k].start
    {
      assert b[k - 1] == runs[p + k - 1] && b[k] == runs[p + k];
    }
  }

  /** Two compressed lists whose seam holds different values concatenate to a compressed list. */
  lemma CompressedAppend<T>(x: seq<Run<T>>, y: seq<Run<T>>)
    requires Compressed(x) && Compressed(y)
    requires |x| > 0 && |y| > 0 ==> x[|x| - 1].value != y[0].value
    ensures Compressed(x + y)
  {
    var c := x + y;
    forall k | 0 < k < |c|
      ensures c[k - 1].value != c[k].value
    {
      if k > |x| {
        assert c[k - 1] == y[k - 1 - |x|] && c[k] == y[k - |x|];
      }
    }
  }

  /** The runs before run `k` tile the indices up to just before its start. */
  lemma ChainBefore<T>(runs: seq<Run<T>>, lo: int, hi: int, k: int)
    requires Chain(runs, lo, hi) && 0 <= k < |runs|
    ensures Chain(runs[..k], lo, runs[k].start - 1)
  {
    var a := runs[..k];
    if k > 0 {
      assert a[k - 1] == runs[k - 1];
    }
    forall i | 0 < i < |a|
      ensures a[i - 1].end + 1 == a[i].start
    {
      assert a[i - 1] == runs[i - 1] && a[i] == runs[i];
    }
  }

  /** The runs after run `k` tile the indices from just past its end. */
  lemma ChainAfter<T>(runs: seq<Run<T>>, lo: int, hi: int, k: int)
    requires Chain(runs, lo, hi) && 0 <= k < |runs|
    ensures Chain(runs[k + 1..], runs[k].end + 1, hi)
  {
    var b := runs[k + 1..];
    if |b| > 0 {
      assert b[0] == runs[k + 1];
    }
    forall i | 0 < i < |b|
      ensures b[i - 1].end + 1 == b[i].start
    {
      assert b[i - 1] == runs[k + i] && b[i] == runs[k + 1 + i];
    }
  }

  /** The runs before and after position `p` flatten to the matching prefix and suffix. */
  lemma {:induction false} FlattenSplit<T>(runs: seq<Run<T>>, lo: int, hi: int, p: int)
    requires Chain(runs, lo, hi) && 0 <= p <= |runs|
    ensures |Flatten(runs)| == hi - lo + 1
    ensures lo <= Mid(runs, lo, p) <= hi + 1
    ensures Flatten(runs[..p]) == Flatten(runs)[..Mid(runs, lo, p) - lo]
    ensures Flatten(runs[p..]) == Flatten(runs)[Mid(runs, lo, p) - lo..]
  {
    var m := Mid(runs, lo, p);
    ChainSplit(runs, lo, hi, p);
    ChainLength(runs[..p], lo, m - 1);
    ChainLength(runs[p..], m, hi);
    FlattenParts(runs, p);
    SplitAt(Flatten(runs[..p]), Flatten(runs[p..]), Flatten(runs), m - lo);
  }

  /** The runs before run `k` flatten to the content before its start. */
  lemma {:induction false} PrefixAt<T>(runs: seq<Run<T>>, lo: int, hi: int, k: int)
    requires Chain(runs, lo, hi) && 0 <= k < |runs|
    ensures 0 <= runs[k].start - lo <= |Flatten(runs)|
    ensures Flatten(runs[..k]) == Flatten(runs)[..runs[k].start - lo]
  {
    FlattenSplit(runs, lo, hi, k);
    ChainSplit(runs, lo, hi, k);
  }

  /** The runs after run `k` flatten to the content after its end. */
  lemma {:induction false} SuffixAfter<T>(runs: seq<Run<T>>, lo: int, hi: int, k: int)
    requires Chain(runs, lo, hi) && 0 <= k < |runs|
    ensures 0 <= runs[k].end + 1 - lo <= |Flatten(runs)|
    ensures Flatten(runs[k + 1..]) == Flatten(runs)[runs[k].end + 1 - lo..]
  {
    FlattenSplit(runs, lo, hi, k + 1);
    assert Mid(runs, lo, k + 1) == runs[k].end + 1;
  }

  /** `Flatten` of a list is `Flatten` of its two halves at `p`, joined. */
  lemma FlattenParts<T>(runs: seq<Run<T>>, p: int)
    requires 0 <= p <= |runs|
    ensures Flatten(runs) == Flatten(runs[..p]) + Flatten(runs[p..])
  {
    assert runs == runs[..p] + runs[p..];
    FlattenAppend(runs[..p], runs[p..]);
  }

  /** The two halves of a concatenation are its prefix and suffix at the left half's length. */
  lemma SplitAt<T>(a: seq<T>, b: seq<T>, c: seq<T>, n: int)
    requires c == a + b && |a| == n
    ensures 0 <= n <= |c| && c[..n] == a && c[n..] == b
  {
  }

  /** An index into the right part of a concatenation. */
  lemma IndexRight<T>(a: seq<T>, b: seq<T>, c: seq<T>, i: int, j: int)
    requires c == a + b && 0 <= j < |b| && i == |a| + j
    ensures 0 <= i < |c| && c[i] == b[j]
  {
  }

  /** Every index a run covers holds that run's value. */
  lemma {:induction false} ValueAt<T>(runs: seq<Run<T>>, lo: int, hi: int, k: int, i: int)
    requires Chain(runs, lo, hi) && 0 <= k < |runs| && Covers(runs[k], i)
    ensures 0 <= i - lo < |Flatten(runs)|
    ensures Flatten(runs)[i - lo] == runs[k].value
    decreases k
  {
    ChainLength(runs, lo, hi);
    FlattenHead(runs);
    var head := Fill(runs[0].value, Size(runs[0]));
    if k == 0 {
      assert head[i - lo] == runs[0].value;
    } else {
      ChainTail(runs, lo, hi);
      ValueAt(runs[1..], runs[0].end + 1, hi, k - 1, i);
      assert runs[1..][k - 1] == runs[k];
      IndexRight(head, Flatten(runs[1..]), Flatten(runs), i - lo, i - (runs[0].end + 1));
    }
  }

  /** `ValueAt` for a chain starting at index 0. */
  lemma ValueAtZero<T>(runs: seq<Run<T>>, hi: int, k: int, i: int)
    requires Chain(runs, 0, hi) && 0 <= k < |runs| && Covers(runs[k], i)
    ensures 0 <= i < |Flatten(runs)| && Flatten(runs)[i] == runs[k].value
  {
    ValueAt(runs, 0, hi, k, i);
  }

  /** A stretch of a sequence holding one value throughout is a block of that value. */
  lemma FillFrom<T>(f: seq<T>, a: int, b: int, n: nat, v: T)
    requires 0 <= a <= b <= |f| && n == b - a
    requires forall j :: a <= j < b ==> f[j] == v
    ensures f[a..b] == Fill(v, n)
  {
  }

  /** The part of the content inside one run is a block of that run's value. */
  lemma {:induction false} RunSlice<T>(runs: seq<Run<T>>, lo: int, hi: int, k: int, x: int, y: int)
    requires Chain(runs, lo, hi) && 0 <= k < |runs|
    requires runs[k].start <= x <= y <= runs[k].end + 1
    ensures lo <= x && y - lo <= |Flatten(runs)|
    ensures Flatten(runs)[x - lo..y - lo] == Fill(runs[k].value, y - x)
  {
    ValueAt(runs, lo, hi, k, runs[k].start);
    ValueAt(runs, lo, hi, k, runs[k].end);
    var f := Flatten(runs);
    forall j | x - lo <= j < y - lo
      ensures f[j] == runs[k].value
    {
      ValueAt(runs, lo, hi, k, j + lo);
    }
    FillFrom(f, x - lo, y - lo, y - x, runs[k].value);
  }

  /** Every index of a chain is covered by some run. */
  lemma {:induction false} Covered<T>(runs: seq<Run<T>>, lo: int, hi: int, i: int) returns (k: int)
    requires Chain(runs, lo, hi) && lo <= i <= hi
    ensures 0 <= k < |runs| && Covers(runs[k], i)
    decreases |runs|
  {
    ChainTail(runs, lo, hi);
    if i <= runs[0].end {
      k := 0;
    } else {
      k := Covered(runs[1..], runs[0].end + 1, hi, i);
      k := k + 1;
    }
  }

  /** Runs of a chain are strictly ordered: an earlier run ends before a later one starts. */
  lemma {:induction false} ChainOrdered<T>(runs: seq<Run<T>>, lo: int, hi: int, i: int, j: int)
    requires Chain(runs, lo, hi) && 0 <= i < j < |runs|
    ensures runs[i].end < runs[j].start
    decreases j - i
  {
    if j > i + 1 {
      ChainOrdered(runs, lo, hi, i, j - 1);
    }
  }

  /** At most one run of a chain covers a given index. */
  lemma CoverUnique<T>(runs: seq<Run<T>>, lo: int, hi: int, i: int, k1: int, k2: int)
    requires Chain(runs, lo, hi) && 0 <= k1 < |runs| && 0 <= k2 < |runs|
    requires Covers(runs[k1], i) && Covers(runs[k2], i)
    ensures k1 == k2
  {
    if k1 < k2 {
      ChainOrdered(runs, lo, hi, k1, k2);
    } else if k2 < k1 {
      ChainOrdered(runs, lo, hi, k2, k1);
    }
  }
}
