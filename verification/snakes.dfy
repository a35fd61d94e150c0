/** The snake: an ordered list of occupied cells (head first), a target
    length, the active direction, an optional pending direction, and the
    cell vacated by the last move (kept so the renderer can erase it). */
module Snakes {
  import opened Optional
  import opened Grid

  datatype Snake = Snake(
    positions: seq<Pos>,
    length: int,
    direction: Direction,
    nextDirection: Option<Direction>,
    last: Option<Pos>,
    position: Pos)   // cached head, the position every game object carries

  /** The start cell: the cell containing the middle of the screen. */
  function Center(): (c: Pos)
    ensures OnBoard(c)
    ensures c.x <= ScreenWidth / 2 < c.x + GridSize
    ensures c.y <= ScreenHeight / 2 < c.y + GridSize
  {
    Pos((ScreenWidth / 2 / GridSize) * GridSize, (ScreenHeight / 2 / GridSize) * GridSize)
  }

  /** A freshly constructed snake. */
  function NewSnake(): (s: Snake)
    ensures s.positions == [Center()] && s.length == 1
    ensures s.direction == Right && s.nextDirection == None
    ensures s.last == None && s.position == Center()
  {
    Snake([Center()], 1, Right, None, None, Center())
  }

  /** The head is the first segment. */
  function GetHead(s: Snake): (h: Pos)
    requires |s.positions| > 0
    ensures h in s.positions
    ensures s.position == s.positions[0] ==> h == s.position
  {
    s.positions[0]
  }

  /** Commit the pending direction, if any, and clear it. */
  function UpdateDirection(s: Snake): (r: Snake)
    ensures r.nextDirection == None
    ensures s.nextDirection.Some? ==> r.direction == s.nextDirection.value
    ensures s.nextDirection.None? ==> r == s
    ensures r.(direction := s.direction, nextDirection := s.nextDirection) == s
  {
    if s.nextDirection.Some? then
      s.(direction := s.nextDirection.value, nextDirection := None)
    else
      s
  }

  /** A second commit right after the first changes nothing. */
  lemma UpdateDirectionIdempotent(s: Snake)
    ensures UpdateDirection(UpdateDirection(s)) == UpdateDirection(s)
  {
  }

  /** Advance one cell: prepend the next head and, when the list would exceed
      the target length, drop the old tail and remember it in `last`. */
  function Move(s: Snake): (r: Snake)
    requires |s.positions| > 0
    ensures r.position == NextCell(s.positions[0], s.direction)
    ensures |r.positions| > 0 && r.positions[0] == r.position
    ensures r.direction == s.direction && r.length == s.length
    ensures r.nextDirection == s.nextDirection
    ensures |s.positions| >= s.length ==>
              && r.positions == [r.position] + s.positions[..|s.positions| - 1]
              && r.last == Some(s.positions[|s.positions| - 1])
    ensures |s.positions| < s.length ==>
              r.positions == [r.position] + s.positions && r.last == None
  {
    var head := NextCell(GetHead(s), s.direction);
    var grown := [head] + s.positions;
    if |grown| > s.length then
      s.(positions := grown[..|grown| - 1], last := Some(grown[|grown| - 1]), position := head)
    else
      s.(positions := grown, last := None, position := head)
  }

  /** Length bookkeeping of a move on a snake that respects its target
      length: the list grows by one until it reaches the target, then keeps
      its size and hands back the old tail. */
  lemma MoveLength(s: Snake)
    requires 0 < |s.positions| <= s.length
    ensures |Move(s).positions| <= Move(s).length
    ensures |Move(s).positions| == if |s.positions| + 1 <= s.length then |s.positions| + 1 else s.length
    ensures |s.positions| == s.length ==>
              |Move(s).positions| == |s.positions| && Move(s).last == Some(s.positions[|s.positions| - 1])
    ensures |s.positions| < s.length ==>
              |Move(s).positions| == |s.positions| + 1 && Move(s).last == None
  {
  }

  /** Every cell behind the new head was already occupied, in the same order. */
  lemma MoveBodyIsOldPrefix(s: Snake)
    requires |s.positions| > 0
    ensures Move(s).positions[1..] <= s.positions
  {
  }

  /** Back to the start state, whatever the snake looked like. */
  function Reset(s: Snake): (r: Snake)
    ensures r == NewSnake()
  {
    Snake([Center()], 1, Right, None, None, Center())
  }

  /** No cell is occupied twice. */
  predicate Distinct(ps: seq<Pos>) {
    forall i, j :: 0 <= i < j < |ps| ==> ps[i] != ps[j]
  }

  /** The shape a snake has between two ticks. */
  predicate Valid(s: Snake) {
    && 1 <= |s.positions| <= s.length
    && (forall i :: 0 <= i < |s.positions| ==> OnBoard(s.positions[i]))
    && s.position == s.positions[0]
    && Distinct(s.positions)
    && s.nextDirection == None
    && (s.last.Some? ==> OnBoard(s.last.value))
  }

  lemma NewSnakeValid()
    ensures Valid(NewSnake())
  {
  }
}
