/** The occupancy grid of the terrain (`MapData`): a row-major vector of cell
    values with bounds-checked access, and its view as a density field for
    contour extraction. */
module MapGrid {
  import opened Outcomes
  import opened RowMajor

  /** What a terrain cell holds. The program stores each as a one-byte
      discriminant, `Empty` being 0 and the solid kinds 1 to 4. */
  datatype MapDataValue = Empty | Sand | Rock | Base | Wall

  function Discriminant(v: MapDataValue): (d: nat)
    ensures d < 5
    ensures d == 0 <==> v == Empty
  {
    match v
    case Empty => 0
    case Sand => 1
    case Rock => 2
    case Base => 3
    case Wall => 4
  }

  /** Distinct values have distinct discriminants. */
  lemma DiscriminantInjective(a: MapDataValue, b: MapDataValue)
    ensures Discriminant(a) == Discriminant(b) <==> a == b
  {
  }

  /** The reason of the panic raised by an out-of-range access. */
  datatype Panic = OutOfBounds(x: nat, y: nat)

  datatype MapData = MapData(data: seq<MapDataValue>, width: nat, height: nat) {
    /** The representation invariant every `MapData` keeps: one cell per coordinate. */
    predicate Valid() {
      |data| == width * height
    }
  }

  predicate InBounds(g: MapData, x: nat, y: nat) {
    x < g.width && y < g.height
  }

  /** The value at `(x, y)`, read from its row-major position. */
  function Cell(g: MapData, x: nat, y: nat): MapDataValue
    requires g.Valid() && InBounds(g, x, y)
  {
    IndexInRange(g.width, g.height, x, y);
    g.data[Index(g.width, x, y)]
  }

  /** A `width` x `height` grid with every cell `Empty`. */
  function New(width: nat, height: nat): (g: MapData)
    ensures g.Valid() && g.width == width && g.height == height
    ensures forall x: nat, y: nat :: InBounds(g, x, y) ==> Cell(g, x, y) == Empty
  {
    IndexInRangeAll(width, height);
    MapData(seq(width * height, _ => Empty), width, height)
  }

  /** Passes exactly for in-bounds coordinates, otherwise panics naming them. */
  function BoundsCheck(g: MapData, x: nat, y: nat): (s: Status<Panic>)
    ensures s.Completed? <==> InBounds(g, x, y)
    ensures s.Panicked? ==> s.reason == OutOfBounds(x, y)
  {
    if x >= g.width || y >= g.height then Panicked(OutOfBounds(x, y)) else Completed
  }

  function Get(g: MapData, x: nat, y: nat): (r: Result<MapDataValue, Panic>)
    requires g.Valid()
    ensures r.Failure? <==> x >= g.width || y >= g.height
    ensures r.Failure? ==> r.error == OutOfBounds(x, y)
    ensures r.Success? ==> r.value == Cell(g, x, y)
  {
    match BoundsCheck(g, x, y)
    case Panicked(p) => Failure(p)
    case Completed => Success(Cell(g, x, y))
  }

  /** Overwrites one cell. The bounds check runs before the write, so a
      panicking call leaves the grid exactly as it was. */
  function Set(g: MapData, x: nat, y: nat, v: MapDataValue): (r: Run<MapData, Panic>)
    requires g.Valid()
    ensures r.status.Panicked? <==> x >= g.width || y >= g.height
    ensures r.status.Panicked? ==> r.state == g && r.status.reason == OutOfBounds(x, y)
    ensures r.state.Valid() && r.state.width == g.width && r.state.height == g.height
  {
    match BoundsCheck(g, x, y)
    case Panicked(p) => Run(g, Panicked(p))
    case Completed =>
      IndexInRange(g.width, g.height, x, y);
      Run(g.(data := g.data[Index(g.width, x, y) := v]), Completed)
  }

  /** Reading a cell just written returns the written value. */
  lemma GetSetSame(g: MapData, x: nat, y: nat, v: MapDataValue)
    requires g.Valid() && InBounds(g, x, y)
    ensures Set(g, x, y, v).status.Completed?
    ensures Get(Set(g, x, y, v).state, x, y) == Success(v)
  {
    IndexInRange(g.width, g.height, x, y);
  }

  /** A write changes no in-bounds cell other than its own. */
  lemma SetFrame(g: MapData, x: nat, y: nat, v: MapDataValue)
    requires g.Valid() && InBounds(g, x, y)
    ensures forall i: nat, j: nat :: InBounds(g, i, j) ==>
      Cell(Set(g, x, y, v).state, i, j) == if i == x && j == y then v else Cell(g, i, j)
  {
    var g' := Set(g, x, y, v).state;
    forall i: nat, j: nat | InBounds(g, i, j)
      ensures Cell(g', i, j) == if i == x && j == y then v else Cell(g, i, j)
    {
      IndexInRange(g.width, g.height, i, j);
      IndexInRange(g.width, g.height, x, y);
      if Index(g.width, i, j) == Index(g.width, x, y) {
        IndexInjective(g.width, i, j, x, y);
      }
    }
  }

  /** The same frame property seen through `Get`, for any coordinate at all:
      out-of-range reads still fail, in-range reads elsewhere are unchanged. */
  lemma GetSetOther(g: MapData, x: nat, y: nat, v: MapDataValue, i: nat, j: nat)
    requires g.Valid()
    requires i != x || j != y
    ensures Get(Set(g, x, y, v).state, i, j) == Get(g, i, j)
  {
    if InBounds(g, x, y) && InBounds(g, i, j) {
      SetFrame(g, x, y, v);
    }
  }

  /** `Field::dimensions`: the extent the contour extractor walks over. It
      bounds exactly the in-bounds coordinates, and a valid grid holds one
      cell per coordinate inside it. */
  function Dimensions(g: MapData): (d: (nat, nat))
    ensures forall x: nat, y: nat :: InBounds(g, x, y) <==> x < d.0 && y < d.1
    ensures g.Valid() ==> |g.data| == d.0 * d.1
  {
    (g.width, g.height)
  }

  /** `Field::z_at`: the density of a cell, 0 for `Empty` and 1 for any solid
      kind. It reads through `Get`, so it panics out of bounds as well. */
  function ZAt(g: MapData, x: nat, y: nat): (r: Result<real, Panic>)
    requires g.Valid()
    ensures r.Failure? <==> x >= g.width || y >= g.height
    ensures r.Failure? ==> r.error == OutOfBounds(x, y)
    ensures r.Success? ==> (r.value == 0.0 <==> Cell(g, x, y) == Empty)
    ensures r.Success? ==> (r.value == 1.0 <==> Cell(g, x, y) != Empty)
  {
    match Get(g, x, y)
    case Failure(p) => Failure(p)
    case Success(v) => Success(if v == Empty then 0.0 else 1.0)
  }

  /** The density field is defined at exactly the coordinates inside its
      reported dimensions. */
  lemma FieldDefinedWithinDimensions(g: MapData, x: nat, y: nat)
    requires g.Valid()
    ensures ZAt(g, x, y).Success? <==> x < Dimensions(g).0 && y < Dimensions(g).1
  {
  }
}
