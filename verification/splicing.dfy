/**
  Putting a run list back together around a replaced middle block. A mutation takes the
  runs before its window (`a`), a new block for the window (`m`) and the runs after it
  (`b`), and glues them with or without the seam merge at either end; whichever way it
  glues, the result tiles the whole range and holds the three contents in order.
*/
module Splicing {
  import opened Runs
  import opened RunAlgebra

  /** Three adjacent chains: `a` over [lo, s - 1], `m` over [s, e], `b` over [e + 1, hi]. */
  predicate Adjacent<T>(a: seq<Run<T>>, m: seq<Run<T>>, b: seq<Run<T>>, lo: int, s: int, e: int, hi: int) {
    Chain(a, lo, s - 1) && Chain(m, s, e) && Chain(b, e + 1, hi)
  }

  /** The content the three pieces stand for, in order. */
  function Pieces<T>(a: seq<Run<T>>, m: seq<Run<T>>, b: seq<Run<T>>): seq<T> {
    Flatten(a) + Flatten(m) + Flatten(b)
  }

  /** Both seams merged, left one first. */
  lemma JoinBoth<T>(a: seq<Run<T>>, m: seq<Run<T>>, b: seq<Run<T>>, lo: int, s: int, e: int, hi: int)
    requires Adjacent(a, m, b, lo, s, e, hi)
    ensures Chain(Join(Join(a, m), b), lo, hi)
    ensures Flatten(Join(Join(a, m), b)) == Pieces(a, m, b)
  {
    JoinChain(a, m, lo, s, e);
    JoinChain(Join(a, m), b, lo, e + 1, hi);
  }

  /** Both seams merged, right one first. */
  lemma JoinNested<T>(a: seq<Run<T>>, m: seq<Run<T>>, b: seq<Run<T>>, lo: int, s: int, e: int, hi: int)
    requires Adjacent(a, m, b, lo, s, e, hi)
    ensures Chain(Join(a, Join(m, b)), lo, hi)
    ensures Flatten(Join(a, Join(m, b))) == Pieces(a, m, b)
  {
    JoinChain(m, b, s, e + 1, hi);
    JoinChain(a, Join(m, b), lo, s, hi);
  }

  /** Only the left seam merged. */
  lemma JoinLeft<T>(a: seq<Run<T>>, m: seq<Run<T>>, b: seq<Run<T>>, lo: int, s: int, e: int, hi: int)
    requires Adjacent(a, m, b, lo, s, e, hi)
    ensures Chain(Join(a, m + b), lo, hi)
    ensures Flatten(Join(a, m + b)) == Pieces(a, m, b)
  {
    ChainAppend(m, b, s, e + 1, hi);
    FlattenAppend(m, b);
    JoinChain(a, m + b, lo, s, hi);
  }

  /** Only the right seam merged. */
  lemma JoinRight<T>(a: seq<Run<T>>, m: seq<Run<T>>, b: seq<Run<T>>, lo: int, s: int, e: int, hi: int)
    requires Adjacent(a, m, b, lo, s, e, hi)
    ensures Chain(Join(a + m, b), lo, hi)
    ensures Flatten(Join(a + m, b)) == Pieces(a, m, b)
  {
    ChainAppend(a, m, lo, s, e);
    FlattenAppend(a, m);
    JoinChain(a + m, b, lo, e + 1, hi);
  }

  /** No seam merged. */
  lemma JoinNone<T>(a: seq<Run<T>>, m: seq<Run<T>>, b: seq<Run<T>>, lo: int, s: int, e: int, hi: int)
    requires Adjacent(a, m, b, lo, s, e, hi)
    ensures Chain(a + m + b, lo, hi)
    ensures Flatten(a + m + b) == Pieces(a, m, b)
  {
    ChainAppend(a, m, lo, s, e);
    ChainAppend(a + m, b, lo, e + 1, hi);
    FlattenAppend(a, m);
    FlattenAppend(a + m, b);
  }

  /** A chain cut out around its run `k`: the runs before, the run, the runs after. */
  lemma AroundRun<T>(runs: seq<Run<T>>, lo: int, hi: int, k: int)
    requires Chain(runs, lo, hi) && 0 <= k < |runs|
    ensures Chain(runs[..k], lo, runs[k].start - 1) && Chain(runs[k + 1..], runs[k].end + 1, hi)
    ensures |Flatten(runs[..k])| == runs[k].start - lo
    ensures Flatten(runs) == Flatten(runs[..k]) + Fill(runs[k].value, Size(runs[k])) + Flatten(runs[k + 1..])
  {
    ChainBefore(runs, lo, hi, k);
    ChainAfter(runs, lo, hi, k);
    ChainLength(runs[..k], lo, runs[k].start - 1);
    assert runs == runs[..k] + [runs[k]] + runs[k + 1..];
    FlattenAppend(runs[..k] + [runs[k]], runs[k + 1..]);
    FlattenAppend(runs[..k], [runs[k]]);
    FlattenSingle(runs[k]);
  }
}
