/** Row-major layout of a `width`-wide two-dimensional grid in a flat buffer:
    cell `(x, y)` lives at linear position `x + y * width`. Both the occupancy
    grid and the RGBA image use this layout. */
module RowMajor {

  /** The linear position of `(x, y)`. For `x < width` it falls in row `y`'s
      band `[y * width, (y + 1) * width)`. */
  function Index(width: nat, x: nat, y: nat): (i: nat)
    ensures x < width ==> y * width <= i < (y + 1) * width
  {
    assert (y + 1) * width == y * width + width;
    x + y * width
  }

  /** Every in-bounds cell lands inside a buffer of `width * height` cells. */
  lemma IndexInRange(width: nat, height: nat, x: nat, y: nat)
    requires x < width && y < height
    ensures Index(width, x, y) < width * height
  {
    calc {
      Index(width, x, y);
      == x + y * width;
      <  width + y * width;
      == (y + 1) * width;
      <= { MulMonotone(y + 1, height, width); } height * width;
      == width * height;
    }
  }

  lemma IndexInRangeAll(width: nat, height: nat)
    ensures forall x: nat, y: nat :: x < width && y < height ==> Index(width, x, y) < width * height
  {
    forall x: nat, y: nat | x < width && y < height
      ensures Index(width, x, y) < width * height
    {
      IndexInRange(width, height, x, y);
    }
  }

  /** Distinct in-bounds coordinates never share a linear position. */
  lemma IndexInjective(width: nat, x1: nat, y1: nat, x2: nat, y2: nat)
    requires x1 < width && x2 < width
    requires Index(width, x1, y1) == Index(width, x2, y2)
    ensures x1 == x2 && y1 == y2
  {
    if y1 < y2 {
      RowsApart(width, x1, y1, x2, y2);
    } else if y2 < y1 {
      RowsApart(width, x2, y2, x1, y1);
    }
  }

  /** A cell on an earlier row always comes strictly before a cell on a later row. */
  lemma RowsApart(width: nat, x1: nat, y1: nat, x2: nat, y2: nat)
    requires x1 < width && y1 < y2
    ensures Index(width, x1, y1) < Index(width, x2, y2)
  {
    calc {
      Index(width, x1, y1);
      == x1 + y1 * width;
      <  width + y1 * width;
      == (y1 + 1) * width;
      <= { MulMonotone(y1 + 1, y2, width); } y2 * width;
      <= Index(width, x2, y2);
    }
  }

  lemma MulMonotone(a: nat, b: nat, c: nat)
    requires a <= b
    ensures a * c <= b * c
  {
    assert b * c == a * c + (b - a) * c;
  }

  /** The inverse of `Index`: the coordinates of a linear position. */
  function Coordinates(width: nat, i: nat): (c: (nat, nat))
    requires width > 0
    ensures c.0 < width
    ensures Index(width, c.0, c.1) == i
  {
    (i % width, i / width)
  }

  /** Linear position -> coordinates -> linear position is the identity, and
      the coordinates of an in-range position are in bounds. */
  lemma CoordinatesInBounds(width: nat, height: nat, i: nat)
    requires width > 0 && i < width * height
    ensures Coordinates(width, i).1 < height
  {
    var c := Coordinates(width, i);
    if c.1 >= height {
      MulMonotone(height, c.1, width);
      assert false;
    }
  }

  /** Coordinates -> linear position -> coordinates is the identity. */
  lemma CoordinatesOfIndex(width: nat, x: nat, y: nat)
    requires x < width
    ensures Coordinates(width, Index(width, x, y)) == (x, y)
  {
    var c := Coordinates(width, Index(width, x, y));
    IndexInjective(width, c.0, c.1, x, y);
  }
}
