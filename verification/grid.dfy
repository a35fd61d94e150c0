/** Board geometry of the snake game: screen and cell sizes, grid positions,
    the four movement directions and the torus step between cells. */
module Grid {

  /** Screen extent in pixels and the side of one square cell. */
  const ScreenWidth: int := 640
  const ScreenHeight: int := 480
  const GridSize: int := 20

  /** Number of cells along each axis (integer division, as in the game). */
  const GridWidth: int := ScreenWidth / GridSize
  const GridHeight: int := ScreenHeight / GridSize

  /** A pixel position: the top-left corner of a cell. */
  datatype Pos = Pos(x: int, y: int)

  /** The four movement directions; `Delta` gives their unit vectors. */
  datatype Direction = Up | Down | Left | Right

  /** The unit vector of a direction, with y growing downwards. */
  function Delta(d: Direction): (v: (int, int))
    ensures -1 <= v.0 <= 1 && -1 <= v.1 <= 1
    ensures (v.0 == 0) != (v.1 == 0)
  {
    match d
    case Up => (0, -1)
    case Down => (0, 1)
    case Left => (-1, 0)
    case Right => (1, 0)
  }

  /** The direction that points the other way. */
  function Opposite(d: Direction): (o: Direction)
    ensures Delta(o) == (-Delta(d).0, -Delta(d).1)
    ensures o != d
  {
    match d
    case Up => Down
    case Down => Up
    case Left => Right
    case Right => Left
  }

  /** Directions are told apart by their vectors, so comparing directions
      is the same as comparing the tuples the game stores. */
  lemma DeltaInjective(d: Direction, e: Direction)
    ensures Delta(d) == Delta(e) <==> d == e
  {
  }

  /** Opposite is an involution. */
  lemma OppositeInvolution(d: Direction)
    ensures Opposite(Opposite(d)) == d
  {
  }

  /** The pixel coordinate lies inside the screen and on a cell boundary. */
  predicate OnBoard(p: Pos) {
    && 0 <= p.x < ScreenWidth && 0 <= p.y < ScreenHeight
    && p.x % GridSize == 0 && p.y % GridSize == 0
  }

  /** Wrapping of one coordinate after a step of at most one cell: the
      Euclidean remainder maps the one-cell overshoot back onto the screen. */
  lemma WrapOneCell(c: int, step: int, extent: int)
    requires extent == ScreenWidth || extent == ScreenHeight
    requires 0 <= c < extent && c % GridSize == 0
    requires step == -GridSize || step == 0 || step == GridSize
    ensures 0 <= (c + step) % extent < extent
    ensures (c + step) % extent % GridSize == 0
    ensures (c + step) % extent ==
              if c + step < 0 then c + step + extent
              else if c + step >= extent then c + step - extent
              else c + step
  {
    var v := c + step;
    if v < 0 {
      assert v == -GridSize;
      assert v % extent == v + extent;
    } else if v >= extent {
      assert v == extent;
      assert v % extent == 0;
    } else {
      assert v % extent == v;
    }
  }

  /** The next cell one grid step away in direction `d`, wrapping each axis
      modulo the screen extent (the board is a torus). */
  function NextCell(p: Pos, d: Direction): (q: Pos)
    ensures 0 <= q.x < ScreenWidth && 0 <= q.y < ScreenHeight
    ensures OnBoard(p) ==> OnBoard(q)
    ensures Delta(d).0 == 0 ==> q.x == p.x % ScreenWidth
    ensures Delta(d).1 == 0 ==> q.y == p.y % ScreenHeight
  {
    var (dx, dy) := Delta(d);
    var q := Pos((p.x + dx * GridSize) % ScreenWidth, (p.y + dy * GridSize) % ScreenHeight);
    if OnBoard(p) then
      WrapOneCell(p.x, dx * GridSize, ScreenWidth);
      WrapOneCell(p.y, dy * GridSize, ScreenHeight);
      q
    else
      q
  }

  /** Crossing an edge re-enters on the opposite edge; the other coordinate
      is left alone. */
  lemma TorusWrap(x: int, y: int)
    requires 0 <= x < ScreenWidth && 0 <= y < ScreenHeight
    ensures NextCell(Pos(ScreenWidth - GridSize, y), Right) == Pos(0, y)
    ensures NextCell(Pos(0, y), Left) == Pos(ScreenWidth - GridSize, y)
    ensures NextCell(Pos(x, 0), Up) == Pos(x, ScreenHeight - GridSize)
    ensures NextCell(Pos(x, ScreenHeight - GridSize), Down) == Pos(x, 0)
  {
  }

  /** Away from the edges a step moves exactly one cell along the direction. */
  lemma NextCellInterior(p: Pos, d: Direction)
    requires OnBoard(p)
    requires 0 <= p.x + Delta(d).0 * GridSize < ScreenWidth
    requires 0 <= p.y + Delta(d).1 * GridSize < ScreenHeight
    ensures NextCell(p, d) == Pos(p.x + Delta(d).0 * GridSize, p.y + Delta(d).1 * GridSize)
  {
  }

  /** Stepping back in the opposite direction undoes a step, so a step is a
      bijection of the board's cells. */
  lemma NextCellInverse(p: Pos, d: Direction)
    requires OnBoard(p)
    ensures NextCell(NextCell(p, d), Opposite(d)) == p
  {
    var q := NextCell(p, d);
    var (dx, dy) := Delta(d);
    WrapOneCell(p.x, dx * GridSize, ScreenWidth);
    WrapOneCell(p.y, dy * GridSize, ScreenHeight);
    WrapOneCell(q.x, -dx * GridSize, ScreenWidth);
    WrapOneCell(q.y, -dy * GridSize, ScreenHeight);
  }
}
