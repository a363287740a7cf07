/** Cells of the tile map and the linear addressing of grid coordinates. */
module Cells {

  datatype Option<T> = None | Some(value: T)

  /** An opaque reference to the scene object occupying a cell (a Unity GameObject). */
  type EntityId = int

  /** One grid cell: whether it can be walked through, and who stands on it (None is null). */
  datatype Cell = Cell(passable: bool, occupant: Option<EntityId>)

  /** The cell of a freshly allocated C# `Cell[]`: a zero-initialised struct. */
  const ZeroCell := Cell(false, None)

  /** The cell every slot holds once the grid has been initialised. */
  const OpenCell := Cell(true, None)

  /** The grid's dimensions when nothing else is configured. */
  const DefaultWidth: nat := 1024
  const DefaultHeight: nat := 1024

  /**
   * Linear index of the integer grid coordinate (x, y): rows are `width` cells long
   * and `origin` shifts the coordinate (0, 0) into the array.
   */
  function MapToIndex(origin: int, width: int, x: int, y: int): int
  {
    origin + x + y * width
  }

  /**
   * For a column inside the row, the index decodes back to the coordinate: Euclidean
   * division of its distance from the origin by the row length gives the row, and the
   * remainder the column.
   */
  lemma MapToIndexDecodes(origin: int, width: int, x: int, y: int)
    requires 0 <= x < width
    ensures (MapToIndex(origin, width, x, y) - origin) / width == y
    ensures (MapToIndex(origin, width, x, y) - origin) % width == x
  {
    var a := x + y * width;
    var q, m := a / width, a % width;
    assert a == q * width + m;
    assert (q - y) * width == x - m;
    if q > y {
      MulAtLeast(q - y, width);
    } else if q < y {
      MulAtLeast(y - q, width);
    }
  }

  /** The four orthogonal neighbours of a cell sit at index -1, +1, -width and +width. */
  lemma MapToIndexNeighbours(origin: int, width: int, x: int, y: int)
    ensures MapToIndex(origin, width, x - 1, y) == MapToIndex(origin, width, x, y) - 1
    ensures MapToIndex(origin, width, x + 1, y) == MapToIndex(origin, width, x, y) + 1
    ensures MapToIndex(origin, width, x, y - 1) == MapToIndex(origin, width, x, y) - width
    ensures MapToIndex(origin, width, x, y + 1) == MapToIndex(origin, width, x, y) + width
  {
  }

  /**
   * Within one band of `width` columns no two coordinates share an index: a column
   * offset never spills into the neighbouring row.
   */
  lemma MapToIndexInjective(origin: int, width: int, x1: int, y1: int, x2: int, y2: int)
    requires 0 <= x1 < width && 0 <= x2 < width
    requires MapToIndex(origin, width, x1, y1) == MapToIndex(origin, width, x2, y2)
    ensures x1 == x2 && y1 == y2
  {
    assert (y1 - y2) * width == x2 - x1;
    if y1 > y2 {
      MulAtLeast(y1 - y2, width);
    } else if y2 > y1 {
      MulAtLeast(y2 - y1, width);
    }
  }

  /**
   * For an even number of rows, with `origin` at the centre of a `width * height` array,
   * the columns 0 .. width-1 of the rows -height/2 .. height/2-1 are exactly addressable.
   */
  lemma AddressableWindow(width: nat, height: nat, x: int, y: int)
    requires height % 2 == 0
    requires 0 <= x < width
    requires -(height / 2) <= y < height / 2
    ensures 0 <= MapToIndex((width * height) / 2, width, x, y) < width * height
  {
    var half := height / 2;
    assert height == 2 * half;
    assert width * height == 2 * (width * half) by {
      assert width * (2 * half) == 2 * (width * half);
    }
    assert (width * height) / 2 == width * half;
    assert MapToIndex((width * height) / 2, width, x, y) == (y + half) * width + x;
    MulNonNegative(y + half, width);
    MulAtMost(y + half, height - 1 - (y + half), width);
    assert (height - 1) * width + width == width * height;
  }

  /**
   * The window is not centred in x: the corner (-width/2, -height/2) lies outside the
   * array for any grid at least two cells wide.
   */
  lemma CentredCornerOutside(width: nat, height: nat)
    requires width >= 2 && height % 2 == 0
    ensures MapToIndex((width * height) / 2, width, -(width / 2), -(height / 2)) < 0
  {
    var half := height / 2;
    assert width * height == 2 * (width * half) by {
      assert height == 2 * half;
      assert width * (2 * half) == 2 * (width * half);
    }
    assert (-half) * width == -(width * half);
  }

  /**
   * The default 1024 x 1024 grid has an even number of rows, so its columns 0 .. 1023
   * of rows -512 .. 511 are addressable.
   */
  lemma DefaultWindow(x: int, y: int)
    requires 0 <= x < DefaultWidth
    requires -(DefaultHeight / 2) <= y < DefaultHeight / 2
    ensures 0 <= MapToIndex((DefaultWidth * DefaultHeight) / 2, DefaultWidth, x, y) < DefaultWidth * DefaultHeight
  {
    AddressableWindow(DefaultWidth, DefaultHeight, x, y);
  }

  lemma MulAtLeast(a: int, b: int)
    requires a >= 1 && b >= 0
    ensures a * b >= b
  {
    assert a * b == (a - 1) * b + b;
    MulNonNegative(a - 1, b);
  }

  lemma MulNonNegative(a: int, b: int)
    requires a >= 0 && b >= 0
    ensures a * b >= 0
  {
  }

  lemma MulAtMost(a: int, d: int, b: int)
    requires d >= 0 && b >= 0
    ensures a * b <= (a + d) * b
  {
    assert (a + d) * b == a * b + d * b;
    MulNonNegative(d, b);
  }

  function Min(a: int, b: int): int
  {
    if a <= b then a else b
  }
}
