/**
  A rectangle of cells given by its inclusive corners, and its ordering: by left edge,
  then by top edge; the right and bottom edges take no part in it.
*/
module Rects {
  import opened Errors

  datatype CellRect = CellRect(left: int, top: int, right: int, bottom: int)

  /** The parameterless constructor. */
  function Empty(): (r: CellRect)
    ensures r.left == 0 && r.top == 0 && r.right == 0 && r.bottom == 0
  {
    CellRect(0, 0, 0, 0)
  }

  function Width(r: CellRect): int { r.right - r.left + 1 }

  function Height(r: CellRect): int { r.bottom - r.top + 1 }

  predicate Contains(r: CellRect, x: int, y: int) {
    r.left <= x <= r.right && r.top <= y <= r.bottom
  }

  /** A rectangle that holds at least one cell. */
  predicate Proper(r: CellRect) {
    r.left <= r.right && r.top <= r.bottom
  }

  /** The cell count of a proper rectangle is its width times its height. */
  lemma {:induction false} ProperSize(r: CellRect)
    requires Proper(r)
    ensures Width(r) >= 1 && Height(r) >= 1
    ensures Contains(r, r.left, r.top) && Contains(r, r.right, r.bottom)
    ensures forall x, y :: Contains(r, x, y) <==> r.left <= x < r.left + Width(r) && r.top <= y < r.top + Height(r)
  {
  }

  /** `Int32.CompareTo`: the sign of a - b. */
  function CompareInt(a: int, b: int): (r: int)
    ensures r == -1 || r == 0 || r == 1
    ensures r < 0 <==> a < b
    ensures r == 0 <==> a == b
  {
    if a < b then -1 else if a > b then 1 else 0
  }

  /** `CompareTo`: a null other sorts after every rectangle. */
  function CompareTo(r: CellRect, other: Option<CellRect>): (c: int)
    ensures other.None? ==> c == -1
    ensures other.Some? ==> (c < 0 <==> Before(r, other.value))
    ensures other.Some? ==> (c == 0 <==> r.left == other.value.left && r.top == other.value.top)
  {
    if other.None? then -1
    else
      var result := CompareInt(r.left, other.value.left);
      if result == 0 then CompareInt(r.top, other.value.top) else result
  }

  /** Strictly earlier by (left, top). */
  predicate Before(a: CellRect, b: CellRect) {
    a.left < b.left || (a.left == b.left && a.top < b.top)
  }

  /** Earlier or tied by (left, top). */
  predicate NotAfter(a: CellRect, b: CellRect) {
    !Before(b, a)
  }

  /** The comparison is antisymmetric and transitive, so it is a valid sort key. */
  lemma CompareAntisymmetric(a: CellRect, b: CellRect)
    ensures CompareTo(a, Some(b)) == -CompareTo(b, Some(a))
  {
  }

  lemma CompareTransitive(a: CellRect, b: CellRect, c: CellRect)
    requires CompareTo(a, Some(b)) <= 0 && CompareTo(b, Some(c)) <= 0
    ensures CompareTo(a, Some(c)) <= 0
  {
  }

  /** Two rectangles that share no cell. */
  predicate Disjoint(a: CellRect, b: CellRect) {
    a.right < b.left || b.right < a.left || a.bottom < b.top || b.bottom < a.top
  }

  lemma {:induction false} DisjointMeans(a: CellRect, b: CellRect)
    requires Proper(a) && Proper(b)
    ensures Disjoint(a, b) <==> forall x, y :: !(Contains(a, x, y) && Contains(b, x, y))
  {
    if !Disjoint(a, b) {
      var x := if a.left < b.left then b.left else a.left;
      var y := if a.top < b.top then b.top else a.top;
      assert Contains(a, x, y) && Contains(b, x, y);
    }
  }

  /** Disjoint proper rectangles never tie in the ordering: their top-left corners differ. */
  lemma DisjointDistinctKeys(a: CellRect, b: CellRect)
    requires Proper(a) && Proper(b) && Disjoint(a, b)
    ensures CompareTo(a, Some(b)) != 0
  {
  }
}
