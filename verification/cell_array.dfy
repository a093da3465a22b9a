/**
  The boolean grid of the cell-range joiner: `width * height` cells stored row by row,
  cell (x, y) at position `x + y * width`.
*/
module Grid {
  import opened Errors
  import opened Unchecked

  datatype CellArray = CellArray(width: int, height: int, cells: seq<bool>)

  /** The argument a rejected coordinate pair is reported against. */
  datatype Axis = X | Y

  predicate Valid(a: CellArray) {
    a.width >= 1 && a.height >= 1 && |a.cells| == a.width * a.height
  }

  predicate InGrid(a: CellArray, x: int, y: int) {
    0 <= x < a.width && 0 <= y < a.height
  }

  /** Row-major position of cell (x, y). */
  function Offset(width: int, x: int, y: int): int {
    x + y * width
  }

  /** A product of a positive factor and a non-negative one is at least the latter. */
  lemma {:induction false} ScaleAtLeast(k: int, w: int)
    requires k >= 1 && w >= 0
    ensures k * w >= w
    decreases k
  {
    if k > 1 {
      ScaleAtLeast(k - 1, w);
      assert k * w == (k - 1) * w + w;
    }
  }

  lemma {:induction false} OffsetBounds(width: int, height: int, x: int, y: int)
    requires 0 <= x < width && 0 <= y < height
    ensures 0 <= y * width && 0 <= Offset(width, x, y) < width * height
  {
    if y > 0 {
      ScaleAtLeast(y, width);
    }
    if y < height - 1 {
      ScaleAtLeast(height - 1 - y, width);
      assert (height - 1 - y) * width == (height - 1) * width - y * width;
    }
    assert (height - 1) * width + width == height * width;
  }

  /** Distinct cells of the grid occupy distinct positions. */
  lemma {:induction false} OffsetInjective(width: int, x: int, y: int, x': int, y': int)
    requires 0 <= x < width && 0 <= x' < width && 0 <= y && 0 <= y'
    ensures Offset(width, x, y) == Offset(width, x', y') <==> x == x' && y == y'
  {
    if y < y' {
      ScaleAtLeast(y' - y, width);
      assert y' * width - y * width == (y' - y) * width;
    } else if y' < y {
      ScaleAtLeast(y - y', width);
      assert y * width - y' * width == (y - y') * width;
    }
  }

  function Cell(a: CellArray, x: int, y: int): bool
    requires Valid(a) && InGrid(a, x, y)
  {
    OffsetBounds(a.width, a.height, x, y);
    a.cells[Offset(a.width, x, y)]
  }

  /** The constructor: both dimensions must be at least 1; every cell starts false. */
  function New(width: int, height: int): (r: Result<CellArray>)
    ensures r.Err? <==> width < 1 || height < 1
    ensures r.Err? ==> r.error == Argument
    ensures r.Ok? ==> Valid(r.value) && r.value.width == width && r.value.height == height
    ensures r.Ok? ==> forall x, y :: InGrid(r.value, x, y) ==> !Cell(r.value, x, y)
  {
    if width < 1 || height < 1 then Err(Argument)
    else
      ScaleAtLeast(width, height);
      var r := CellArray(width, height, seq(width * height, _ => false));
      assert forall x, y :: InGrid(r, x, y) ==> !Cell(r, x, y) by {
        forall x, y | InGrid(r, x, y) ensures !Cell(r, x, y) {
          OffsetBounds(width, height, x, y);
        }
      }
      Ok(r)
  }

  /**
    The number of cells the C# constructor allocates: `width * height` as an unchecked 32-bit
    product. It is the grid's size whenever the product fits in an `int`.
  */
  function AllocatedCells(width: int, height: int): (n: int)
    ensures 1 <= width && 1 <= height && width * height <= MaxValue ==> n == width * height
  {
    Wrap(width * height)
  }

  /**
    As written, a 65536 by 65537 grid gets 65536 cells, one row's worth: cell (0, 1) is in
    the grid and passes the coordinate check, yet its offset is past the end of the array.
    The grid `New` builds holds that cell.
  */
  lemma AsWrittenShortArray()
    ensures AllocatedCells(65536, 65537) == 65536
    ensures CheckIndex(CellArray(65536, 65537, []), 0, 1).None? && Offset(65536, 0, 1) == 65536
    ensures New(65536, 65537).Ok? && Get(New(65536, 65537).value, 0, 1).Ok?
  {
  }

  /** `CheckIndex`: the argument named by the exception, x being checked before y. */
  function CheckIndex(a: CellArray, x: int, y: int): (r: Option<Axis>)
    ensures r.None? <==> InGrid(a, x, y)
    ensures r == Some(X) <==> !(0 <= x < a.width)
    ensures r == Some(Y) <==> 0 <= x < a.width && !(0 <= y < a.height)
  {
    if x < 0 || x >= a.width then Some(X)
    else if y < 0 || y >= a.height then Some(Y)
    else None
  }

  function Get(a: CellArray, x: int, y: int): (r: Result<bool>)
    requires Valid(a)
    ensures r.Ok? <==> InGrid(a, x, y)
    ensures r.Err? ==> r.error == ArgumentOutOfRange
    ensures r.Ok? ==> r.value == Cell(a, x, y)
  {
    if CheckIndex(a, x, y).Some? then Err(ArgumentOutOfRange)
    else
      OffsetBounds(a.width, a.height, x, y);
      Ok(a.cells[x + y * a.width])
  }

  /** One write at the position of (x, y) changes that cell and no other. */
  lemma {:induction false} WriteCell(a: CellArray, x: int, y: int, v: bool)
    requires Valid(a) && InGrid(a, x, y)
    ensures 0 <= Offset(a.width, x, y) < |a.cells|
    ensures var b := a.(cells := a.cells[Offset(a.width, x, y) := v]);
      Valid(b) && Cell(b, x, y) == v &&
      forall x', y' :: InGrid(a, x', y') && (x', y') != (x, y) ==> Cell(b, x', y') == Cell(a, x', y')
  {
    OffsetBounds(a.width, a.height, x, y);
    var b := a.(cells := a.cells[Offset(a.width, x, y) := v]);
    forall x', y' | InGrid(a, x', y') && (x', y') != (x, y)
      ensures Cell(b, x', y') == Cell(a, x', y')
    {
      OffsetInjective(a.width, x, y, x', y');
      OffsetBounds(a.width, a.height, x', y');
    }
  }

  function Set(a: CellArray, x: int, y: int, v: bool): (r: Result<CellArray>)
    requires Valid(a)
    ensures r.Ok? <==> InGrid(a, x, y)
    ensures r.Err? ==> r.error == ArgumentOutOfRange
    ensures r.Ok? ==> Valid(r.value) && r.value.width == a.width && r.value.height == a.height
    ensures r.Ok? ==> Get(r.value, x, y) == Ok(v)
    ensures r.Ok? ==> forall x', y' :: InGrid(a, x', y') && (x', y') != (x, y) ==> Cell(r.value, x', y') == Cell(a, x', y')
  {
    if CheckIndex(a, x, y).Some? then Err(ArgumentOutOfRange)
    else
      WriteCell(a, x, y, v);
      Ok(a.(cells := a.cells[x + y * a.width := v]))
  }

  predicate InRect(x: int, y: int, left: int, top: int, right: int, bottom: int) {
    left <= x <= right && top <= y <= bottom
  }

  /**
    `SetRect`: only the two corners are checked; then every cell with left <= x <= right
    and top <= y <= bottom is set, row by row. Inverted bounds set nothing.
  */
  method SetRect(a: CellArray, left: int, top: int, right: int, bottom: int, v: bool) returns (r: Result<CellArray>)
    requires Valid(a)
    ensures r.Ok? <==> InGrid(a, left, top) && InGrid(a, right, bottom)
    ensures r.Err? ==> r.error == ArgumentOutOfRange
    ensures r.Ok? ==> Valid(r.value) && r.value.width == a.width && r.value.height == a.height
    ensures r.Ok? ==> forall x, y :: InGrid(a, x, y) ==>
      Cell(r.value, x, y) == if InRect(x, y, left, top, right, bottom) then v else Cell(a, x, y)
  {
    if CheckIndex(a, left, top).Some? || CheckIndex(a, right, bottom).Some? {
      return Err(ArgumentOutOfRange);
    }
    var b := a;
    var y := top;
    while y <= bottom
      invariant top <= y && (y <= bottom + 1 || y == top)
      invariant Valid(b) && b.width == a.width && b.height == a.height
      invariant forall x', y' :: InGrid(a, x', y') ==>
        Cell(b, x', y') == if left <= x' <= right && top <= y' < y then v else Cell(a, x', y')
    {
      var offset := y * a.width;
      var x := left;
      while x <= right
        invariant left <= x && (x <= right + 1 || x == left)
        invariant Valid(b) && b.width == a.width && b.height == a.height
        invariant forall x', y' :: InGrid(a, x', y') ==>
          Cell(b, x', y') == if (left <= x' <= right && top <= y' < y) || (left <= x' < x && y' == y) then v else Cell(a, x', y')
      {
        WriteCell(b, x, y, v);
        b := b.(cells := b.cells[x + offset := v]);
        x := x + 1;
      }
      y := y + 1;
    }
    return Ok(b);
  }
}
