/**
  `Order`: rearrange an array of zeros and ones so that the zeros come first, in one
  pass that keeps the position of the last zero placed and, on meeting a zero past it,
  writes a zero there and a one in the zero's place.

  The pass does not read the value it overwrites, so it is defined for any integers:
  the first `c` cells become zero, `c` the number of zeros, and every later zero becomes
  a one. On zeros and ones that is the sorted permutation.
*/
module Order01 {

  /** Every element is 0 or 1, the input the procedure is meant for. */
  predicate Bits(s: seq<int>) {
    forall k :: 0 <= k < |s| ==> s[k] == 0 || s[k] == 1
  }

  /** The number of zeros in `s`. */
  function Zeros(s: seq<int>): (n: nat)
    ensures n <= |s|
  {
    if |s| == 0 then 0 else Zeros(s[..|s| - 1]) + (if s[|s| - 1] == 0 then 1 else 0)
  }

  /** `Zeros` is the multiplicity of 0 in the multiset of the cells. */
  lemma {:induction false} ZerosCount(s: seq<int>)
    ensures Zeros(s) == multiset(s)[0]
  {
    if |s| > 0 {
      var t := s[..|s| - 1];
      assert s == t + [s[|s| - 1]];
      ZerosCount(t);
    }
  }

  /**
    The array after `Order`, as a sequence: the cells before the zero count hold 0, every
    later zero is now 1, and every later non-zero value is where it was.
  */
  method Order(values: seq<int>) returns (r: seq<int>)
    ensures |r| == |values|
    ensures forall k :: 0 <= k < |r| ==>
      r[k] == if k < Zeros(values) then 0 else if values[k] == 0 then 1 else values[k]
    ensures Bits(values) ==> multiset(r) == multiset(values)
    ensures Bits(values) ==> forall j, k :: 0 <= j < k < |r| ==> r[j] <= r[k]
  {
    r := values;
    var lastZeroPosition := -1;
    var i := 0;
    while i < |r|
      invariant 0 <= i <= |values| && |r| == |values|
      invariant lastZeroPosition + 1 == Zeros(values[..i])
      invariant lastZeroPosition < i
      invariant forall k :: 0 <= k < i ==>
        r[k] == if k <= lastZeroPosition then 0 else if values[k] == 0 then 1 else values[k]
      invariant forall k :: i <= k < |r| ==> r[k] == values[k]
    {
      assert values[..i + 1][..i] == values[..i];
      if r[i] == 0 {
        lastZeroPosition := lastZeroPosition + 1;
        if i > lastZeroPosition {
          r := r[lastZeroPosition := 0][i := 1];
        }
      }
      i := i + 1;
    }
    assert values[..i] == values;
    if Bits(values) {
      SortedBits(values, r);
    }
  }

  /** A sequence of zeros and ones is, as a multiset, its zeros and its other cells as ones. */
  lemma {:induction false} BitsMultiset(s: seq<int>)
    requires Bits(s)
    ensures multiset(s) == multiset{}[0 := Zeros(s)][1 := |s| - Zeros(s)]
  {
    if |s| > 0 {
      var t := s[..|s| - 1];
      assert s == t + [s[|s| - 1]];
      BitsMultiset(t);
    }
  }

  /** The zeros of a sequence whose zeros are exactly its first `c` cells, counted up to `m`. */
  lemma {:induction false} PrefixZeros(r: seq<int>, c: nat, m: nat)
    requires m <= |r| && forall k :: 0 <= k < |r| ==> (r[k] == 0 <==> k < c)
    ensures Zeros(r[..m]) == if m < c then m else c
  {
    if m > 0 {
      assert r[..m][..m - 1] == r[..m - 1];
      PrefixZeros(r, c, m - 1);
    }
  }

  /**
    On zeros and ones, the zeros-first arrangement `Order` produces is sorted and holds
    the same values as the input.
  */
  lemma SortedBits(values: seq<int>, r: seq<int>)
    requires Bits(values) && |r| == |values|
    requires forall k :: 0 <= k < |r| ==>
      r[k] == if k < Zeros(values) then 0 else if values[k] == 0 then 1 else values[k]
    ensures multiset(r) == multiset(values)
    ensures forall j, k :: 0 <= j < k < |r| ==> r[j] <= r[k]
  {
    PrefixZeros(r, Zeros(values), |r|);
    assert r[..|r|] == r;
    BitsMultiset(values);
    BitsMultiset(r);
  }
}
