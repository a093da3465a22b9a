/**
  The grouping step both joins share: the scanned runs are put into buckets keyed by where
  they start (the left edge for the row join, the top edge for the column join). A bucket
  keeps the runs in the order they were scanned.
*/
module Buckets {
  import opened Rects
  import opened Directions

  /** The runs that start (keep) or do not start (!keep) at `k`, in order. */
  function Bucket(rects: seq<CellRect>, d: Direction, k: int, keep: bool): (b: seq<CellRect>)
    ensures |b| <= |rects|
    ensures forall r :: r in b <==> r in rects && (Start(r, d) == k) == keep
  {
    if |rects| == 0 then []
    else if (Start(rects[0], d) == k) == keep then [rects[0]] + Bucket(rects[1..], d, k, keep)
    else Bucket(rects[1..], d, k, keep)
  }

  /** The two buckets split the runs: together they have as many as there are runs. */
  lemma {:induction false} BucketSplit(rects: seq<CellRect>, d: Direction, k: int)
    ensures |Bucket(rects, d, k, true)| + |Bucket(rects, d, k, false)| == |rects|
  {
    if |rects| > 0 {
      BucketSplit(rects[1..], d, k);
    }
  }
}
