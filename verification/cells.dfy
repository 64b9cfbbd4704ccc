/** Integer lattice translations ("cells"): how many periods a half-edge crosses along each axis. */
module Cells {

  datatype Cell = Cell(a: int, b: int, c: int)

  /** The cell of the home unit cell, `[0, 0, 0]`. */
  const Zero: Cell := Cell(0, 0, 0)

  /** Componentwise sum: how cells accumulate along a walk. */
  function Add(x: Cell, y: Cell): Cell {
    Cell(x.a + y.a, x.b + y.b, x.c + y.c)
  }

  /** Componentwise negation: the cell of a reversed half-edge. */
  function Neg(x: Cell): Cell {
    Cell(-x.a, -x.b, -x.c)
  }

  /** Componentwise difference `x - y`: the cell an edge crosses from its first to its second endpoint. */
  function Sub(x: Cell, y: Cell): Cell {
    Cell(x.a - y.a, x.b - y.b, x.c - y.c)
  }

  /** Every component is zero: the translation leaves the unit cell where it is. */
  predicate IsZero(x: Cell) {
    x.a == 0 && x.b == 0 && x.c == 0
  }
}
