/**
  The two directions the joiner reads the grid in. By rows, a line is a row, a run starts at
  its left edge and a block spans rows from its top to its bottom; by columns, a line is a
  column, a run starts at its top edge and a block spans columns from its left to its right.
  With these views one definition of the join serves both `JoinByRows` and `JoinByColumns`.
*/
module Directions {
  import opened Grid
  import opened Rects
  import opened Scanning

  datatype Direction = ByRows | ByColumns

  /** Where a rectangle starts along its lines: its left edge by rows, its top edge by columns. */
  function Start(r: CellRect, d: Direction): int {
    match d
    case ByRows => r.left
    case ByColumns => r.top
  }

  /** Where a rectangle ends along its lines: its right edge by rows, its bottom edge by columns. */
  function End(r: CellRect, d: Direction): int {
    match d
    case ByRows => r.right
    case ByColumns => r.bottom
  }

  /** The first line a rectangle spans: its top row, or its left column. */
  function First(r: CellRect, d: Direction): int {
    match d
    case ByRows => r.top
    case ByColumns => r.left
  }

  /** The last line a rectangle spans: its bottom row, or its right column. */
  function Last(r: CellRect, d: Direction): int {
    match d
    case ByRows => r.bottom
    case ByColumns => r.right
  }

  /** The number of lines: the grid's height by rows, its width by columns. */
  function Lines(a: CellArray, d: Direction): int {
    match d
    case ByRows => a.height
    case ByColumns => a.width
  }

  /** Line `v` of the grid: row `v`, or column `v`. */
  function Line(a: CellArray, d: Direction, v: int): seq<bool>
    requires Valid(a) && 0 <= v < Lines(a, d)
  {
    match d
    case ByRows => Row(a, v)
    case ByColumns => Column(a, v)
  }

  /** Cell (x, y) sits at position `Along(x, y, d)` of line `Across(x, y, d)`. */
  function Along(x: int, y: int, d: Direction): int {
    match d
    case ByRows => x
    case ByColumns => y
  }

  function Across(x: int, y: int, d: Direction): int {
    match d
    case ByRows => y
    case ByColumns => x
  }

  /** Containment, read along the lines. */
  lemma ContainsAlong(r: CellRect, d: Direction, x: int, y: int)
    ensures Contains(r, x, y) <==>
      Start(r, d) <= Along(x, y, d) <= End(r, d) && First(r, d) <= Across(x, y, d) <= Last(r, d)
  {
  }

  /** Disjointness, read along the lines. */
  lemma DisjointAlong(r: CellRect, q: CellRect, d: Direction)
    ensures Disjoint(r, q) <==>
      End(r, d) < Start(q, d) || End(q, d) < Start(r, d) || Last(r, d) < First(q, d) || Last(q, d) < First(r, d)
  {
  }

  /** Every cell of the grid is a position of one of its lines. */
  lemma CellOnLine(a: CellArray, d: Direction, x: int, y: int)
    requires Valid(a) && InGrid(a, x, y)
    ensures 0 <= Across(x, y, d) < Lines(a, d)
    ensures 0 <= Along(x, y, d) < |Line(a, d, Across(x, y, d))|
    ensures Line(a, d, Across(x, y, d))[Along(x, y, d)] == Cell(a, x, y)
  {
  }

  /** A maximal one-line run, as the scan in direction `d` yields it. */
  predicate Run(a: CellArray, r: CellRect, d: Direction)
    requires Valid(a)
  {
    match d
    case ByRows => RowRun(a, r)
    case ByColumns => ColumnRun(a, r)
  }

  /** Scanner order: an earlier line, or further along the same line with a gap between. */
  predicate Precedes(r: CellRect, q: CellRect, d: Direction) {
    First(r, d) < First(q, d) || (First(r, d) == First(q, d) && End(r, d) + 1 < Start(q, d))
  }

  predicate Ordered(rects: seq<CellRect>, d: Direction) {
    forall i, j :: 0 <= i < j < |rects| ==> Precedes(rects[i], rects[j], d)
  }

  /** The runs the scan in direction `d` yields. */
  function Scan(a: CellArray, d: Direction): seq<CellRect>
    requires Valid(a)
  {
    match d
    case ByRows => RowsScanned(a, a.height)
    case ByColumns => ColumnsScanned(a, a.width)
  }

  /** The scan in direction `d`: maximal one-line runs in scanner order covering every set cell. */
  method ScanBy(a: CellArray, d: Direction) returns (rects: seq<CellRect>)
    requires Valid(a)
    ensures rects == Scan(a, d)
    ensures forall i :: 0 <= i < |rects| ==> Run(a, rects[i], d)
    ensures Ordered(rects, d)
    ensures forall x, y :: InGrid(a, x, y) && Cell(a, x, y) ==> Covered(rects, x, y)
  {
    if d == ByRows {
      rects := ScanByRows(a);
    } else {
      rects := ScanByColumns(a);
    }
  }
}
