/** `setup_map`: a fresh 500 x 500 grid with the square 200..300 x 200..300
    filled with `Sand`, written cell by cell in a nested loop. */
module MapSetup {
  import opened Outcomes
  import opened MapGrid

  const MapSize: nat := 500
  const SandFrom: nat := 200
  const SandTo: nat := 300

  predicate InSandSquare(x: nat, y: nat) {
    SandFrom <= x < SandTo && SandFrom <= y < SandTo
  }

  /** Returns the grid handed on to contour extraction, and (as a ghost) the
      first panic any `set` call raised, if one did. */
  method SetupMap() returns (g: MapData, ghost status: Status<Panic>)
    ensures status == Completed
    ensures g.Valid() && g.width == MapSize && g.height == MapSize
    ensures forall x: nat, y: nat :: x < MapSize && y < MapSize ==>
      Get(g, x, y) == Success(if InSandSquare(x, y) then Sand else Empty)
  {
    g := New(MapSize, MapSize);
    status := Completed;
    var x := SandFrom;
    while x < SandTo
      invariant SandFrom <= x <= SandTo
      invariant status == Completed
      invariant g.Valid() && g.width == MapSize && g.height == MapSize
      invariant forall i: nat, j: nat :: InBounds(g, i, j) ==>
        Cell(g, i, j) == if SandFrom <= i < x && SandFrom <= j < SandTo then Sand else Empty
    {
      var y := SandFrom;
      while y < SandTo
        invariant SandFrom <= y <= SandTo
        invariant status == Completed
        invariant g.Valid() && g.width == MapSize && g.height == MapSize
        invariant forall i: nat, j: nat :: InBounds(g, i, j) ==>
          Cell(g, i, j) ==
            if (SandFrom <= i < x && SandFrom <= j < SandTo) || (i == x && SandFrom <= j < y)
            then Sand else Empty
      {
        SetFrame(g, x, y, Sand);
        var run := Set(g, x, y, Sand);
        if status.Completed? && run.status.Panicked? {
          status := run.status;
        }
        g := run.state;
        y := y + 1;
      }
      x := x + 1;
    }
  }
}
