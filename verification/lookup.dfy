/**
  Mapping an absolute index to the run that holds it: the most-recently-used cursor
  is tried first, and a binary search over the runs with the index comparator is the
  fallback (`GetItemIndex`).
*/
module Lookup {
  import opened Runs

  /**
    The index comparator: positive when the index lies before the run, negative when it
    lies after it, zero when the run holds it.
  */
  function Compare<T>(i: int, r: Run<T>): (c: int)
    ensures c == 0 <==> Covers(r, i)
    ensures c > 0 <==> i < r.start
    ensures c < 0 <==> r.start <= i && r.end < i
  {
    if i < r.start then 1
    else if i > r.end then -1
    else 0
  }

  /**
    Binary search of `runs[lo..hi)` steered by `Compare`; -1 when no run holds `i`.
    The library search routine is not part of this model: this is the search the
    comparator's sign convention calls for.
  */
  function Search<T>(runs: seq<Run<T>>, i: int, lo: int, hi: int): (r: int)
    requires 0 <= lo <= hi <= |runs|
    ensures r == -1 || (lo <= r < hi && Covers(runs[r], i))
    decreases hi - lo
  {
    if lo == hi then -1
    else
      var mid := (lo + hi) / 2;
      var c := Compare(i, runs[mid]);
      if c == 0 then mid
      else if c > 0 then Search(runs, i, lo, mid)
      else Search(runs, i, mid + 1, hi)
  }

  /** On a chain the search finds the run holding `i` whenever it lies in the searched slice. */
  lemma {:induction false} SearchFinds<T>(runs: seq<Run<T>>, lo0: int, hi0: int, i: int, k: int, lo: int, hi: int)
    requires Chain(runs, lo0, hi0) && 0 <= lo <= k < hi <= |runs| && Covers(runs[k], i)
    ensures Search(runs, i, lo, hi) == k
    decreases hi - lo
  {
    var mid := (lo + hi) / 2;
    if k < mid {
      ChainOrdered(runs, lo0, hi0, k, mid);
      SearchFinds(runs, lo0, hi0, i, k, lo, mid);
    } else if k > mid {
      ChainOrdered(runs, lo0, hi0, mid, k);
      SearchFinds(runs, lo0, hi0, i, k, mid + 1, hi);
    }
  }

  /** `GetItemIndex`: the cursor run when it holds `i`, otherwise the search result. */
  function Locate<T>(runs: seq<Run<T>>, i: int, hint: int): (r: int)
    ensures r == -1 || (0 <= r < |runs| && Covers(runs[r], i))
  {
    if 0 <= hint < |runs| && Covers(runs[hint], i) then hint
    else Search(runs, i, 0, |runs|)
  }

  /**
    On a chain every index in range is found, and the answer is the one binary search
    gives: the cursor changes only how fast the run is found, never which run.
  */
  lemma LocateIgnoresHint<T>(runs: seq<Run<T>>, lo: int, hi: int, i: int, hint: int)
    requires Chain(runs, lo, hi) && lo <= i <= hi
    ensures 0 <= Locate(runs, i, hint) < |runs|
    ensures Locate(runs, i, hint) == Search(runs, i, 0, |runs|)
  {
    var k := Covered(runs, lo, hi, i);
    SearchFinds(runs, lo, hi, i, k, 0, |runs|);
    if 0 <= hint < |runs| && Covers(runs[hint], i) {
      CoverUnique(runs, lo, hi, i, hint, k);
    }
  }

  /** The located run's value is the content at `i`. */
  lemma LocateValue<T>(runs: seq<Run<T>>, hi: int, i: int, hint: int)
    requires Chain(runs, 0, hi) && 0 <= i <= hi
    ensures 0 <= Locate(runs, i, hint) < |runs|
    ensures i < |Flatten(runs)| && Flatten(runs)[i] == runs[Locate(runs, i, hint)].value
  {
    LocateIgnoresHint(runs, 0, hi, i, hint);
    ValueAtZero(runs, hi, Locate(runs, i, hint), i);
  }
}
