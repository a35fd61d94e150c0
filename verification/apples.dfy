/** The apple: a single cell placed at random on the board. The random draw
    is an argument: a pair of cell indices within the grid. */
module Apples {
  import opened Grid

  datatype Apple = Apple(position: Pos)

  /** Column and row indices of a cell. */
  datatype Cell = Cell(col: int, row: int)

  /** A cell index pair that the game's random draw can produce: each index
      is drawn from 0 to the grid extent minus one, both ends included. */
  predicate InGrid(c: Cell) {
    0 <= c.col <= GridWidth - 1 && 0 <= c.row <= GridHeight - 1
  }

  type GridCell = c: Cell | InGrid(c) witness Cell(0, 0)

  /** Move the apple to the chosen cell, scaled to pixels. */
  function RandomizePosition(c: GridCell): (a: Apple)
    ensures OnBoard(a.position)
    ensures a.position.x / GridSize == c.col && a.position.y / GridSize == c.row
  {
    Apple(Pos(c.col * GridSize, c.row * GridSize))
  }

  /** A new apple is placed at once at a random cell. */
  function NewApple(c: GridCell): (a: Apple)
    ensures OnBoard(a.position)
    ensures a == RandomizePosition(c)  // definitional
  {
    RandomizePosition(c)
  }

  /** Every cell of the board can be chosen, by exactly one draw. */
  lemma RandomizeCoversBoard(p: Pos)
    requires OnBoard(p)
    ensures InGrid(Cell(p.x / GridSize, p.y / GridSize))
    ensures RandomizePosition(Cell(p.x / GridSize, p.y / GridSize)).position == p
    ensures forall c: GridCell :: RandomizePosition(c).position == p ==> c == Cell(p.x / GridSize, p.y / GridSize)
  {
  }
}
