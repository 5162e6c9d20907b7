/** Cells of a grid and the eight directions in which they touch. */
module Grids {

  datatype Cell = Cell(r: int, c: int)

  function Abs(x: int): nat {
    if x < 0 then -x else x
  }

  /** One of the eight cells around `x`. */
  predicate Touches(x: Cell, y: Cell) {
    x != y && Abs(y.r - x.r) <= 1 && Abs(y.c - x.c) <= 1
  }

  /** A step along a row or a column rather than across a corner. */
  predicate Straight(x: Cell, y: Cell) {
    x.r == y.r || x.c == y.c
  }

  /** The eight cells that touch a cell, and the four of them that are a step along a row or a column away. */
  lemma EightNeighbours(x: Cell, y: Cell)
    ensures Touches(x, y) && Straight(x, y) <==>
            y == Cell(x.r - 1, x.c) || y == Cell(x.r + 1, x.c) || y == Cell(x.r, x.c - 1) || y == Cell(x.r, x.c + 1)
    ensures Touches(x, y) && !Straight(x, y) <==>
            || y == Cell(x.r - 1, x.c - 1) || y == Cell(x.r - 1, x.c + 1)
            || y == Cell(x.r + 1, x.c - 1) || y == Cell(x.r + 1, x.c + 1)
  {
  }
}
