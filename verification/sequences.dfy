/**
  What each mutation of the collection does to its plain content, stated on sequences.
  The collection has a fixed length, so an insertion pushes values off the end and a
  removal back-fills the end with the last value.
*/
module Sequences {
  import opened Runs

  /** `block` written over `s` from `start` on. */
  function Overwrite<T>(s: seq<T>, start: int, block: seq<T>): (r: seq<T>)
    requires 0 <= start && start + |block| <= |s|
    ensures |r| == |s|
    ensures forall i :: 0 <= i < |s| ==> r[i] == (if start <= i < start + |block| then block[i - start] else s[i])
  {
    s[..start] + block + s[start + |block|..]
  }

  /** `block` inserted at `index`; the last `|block|` values fall off the end. */
  function InsertShift<T>(s: seq<T>, index: int, block: seq<T>): (r: seq<T>)
    requires 0 <= index && index + |block| <= |s|
    ensures |r| == |s|
    ensures r[..index] == s[..index] && r[index..index + |block|] == block
    ensures r[index + |block|..] == s[index..|s| - |block|]
  {
    (s[..index] + block + s[index..])[..|s|]
  }

  /** `count` values removed at `index`; the end is refilled with the old last value. */
  function RemoveShift<T>(s: seq<T>, index: int, count: int): (r: seq<T>)
    requires 0 <= index && 0 <= count && index + count <= |s| && |s| > 0
    ensures |r| == |s|
    ensures r[..index] == s[..index] && r[index..|s| - count] == s[index + count..]
    ensures forall i :: |s| - count <= i < |s| ==> r[i] == s[|s| - 1]
  {
    s[..index] + s[index + count..] + Fill(s[|s| - 1], count)
  }

  /** Removing what was just inserted brings back the prefix and the surviving suffix. */
  lemma RemoveAfterInsert<T>(s: seq<T>, index: int, block: seq<T>)
    requires 0 <= index && index + |block| <= |s| && |s| > 0
    ensures RemoveShift(InsertShift(s, index, block), index, |block|)[..|s| - |block|] == s[..|s| - |block|]
  {
    var t := InsertShift(s, index, block);
    var r := RemoveShift(t, index, |block|);
    assert r[..index] == s[..index];
    assert r[index..|s| - |block|] == t[index + |block|..] == s[index..|s| - |block|];
    assert r[..|s| - |block|] == r[..index] + r[index..|s| - |block|];
    assert s[..|s| - |block|] == s[..index] + s[index..|s| - |block|];
  }

  /** Writing back the values that fell off the end completes the inverse of an insertion. */
  lemma InsertUndone<T>(s: seq<T>, index: int, block: seq<T>)
    requires 0 <= index && index + |block| <= |s| && |s| > 0
    ensures Overwrite(RemoveShift(InsertShift(s, index, block), index, |block|), |s| - |block|, s[|s| - |block|..]) == s
  {
    RemoveAfterInsert(s, index, block);
    var r := RemoveShift(InsertShift(s, index, block), index, |block|);
    var n := |s| - |block|;
    assert Overwrite(r, n, s[n..]) == r[..n] + s[n..];
    assert s == s[..n] + s[n..];
  }

  /** Re-inserting the removed values undoes a removal exactly. */
  lemma RemoveUndone<T>(s: seq<T>, index: int, count: int)
    requires 0 <= index && 0 <= count && index + count <= |s| && |s| > 0
    ensures InsertShift(RemoveShift(s, index, count), index, s[index..index + count]) == s
  {
    var r := RemoveShift(s, index, count);
    var t := InsertShift(r, index, s[index..index + count]);
    assert t[..index] == s[..index];
    assert t[index..index + count] == s[index..index + count];
    assert t[index + count..] == r[index..|s| - count] == s[index + count..];
    assert t == t[..index] + t[index..index + count] + t[index + count..];
    assert s == s[..index] + s[index..index + count] + s[index + count..];
  }

  /** Writing back what was overwritten restores the sequence. */
  lemma OverwriteUndone<T>(s: seq<T>, start: int, block: seq<T>)
    requires 0 <= start && start + |block| <= |s|
    ensures Overwrite(Overwrite(s, start, block), start, s[start..start + |block|]) == s
  {
  }

  /** Overwriting depends only on the block: doing it twice is doing it once. */
  lemma OverwriteTwice<T>(s: seq<T>, start: int, block: seq<T>)
    requires 0 <= start && start + |block| <= |s|
    ensures Overwrite(Overwrite(s, start, block), start, block) == Overwrite(s, start, block)
  {
  }
}
