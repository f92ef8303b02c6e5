/** The playing field: a square of Rows x Rows cells, and the flat occupancy
    index `y * rows + x` under which each cell is stored. */
module Grid {

  /** Cells per axis (`rows` is set once at start-up and never changed). */
  const Rows: int := 100

  /** One cell of the field; the position part of a `Block`. */
  datatype Cell = Cell(x: int, y: int)

  predicate InBounds(c: Cell) {
    0 <= c.x < Rows && 0 <= c.y < Rows
  }

  predicate AllInBounds(cells: seq<Cell>) {
    forall i :: 0 <= i < |cells| ==> InBounds(cells[i])
  }

  /** Position of a cell in the flat occupancy slice. */
  function Index(c: Cell): (i: nat)
    requires InBounds(c)
    ensures i < Rows * Rows
  {
    c.y * Rows + c.x
  }

  /** Distinct cells never share an occupancy slot, so writing one slot
      leaves every other cell's occupancy alone. */
  lemma IndexInjective(a: Cell, b: Cell)
    requires InBounds(a) && InBounds(b)
    ensures Index(a) == Index(b) <==> a == b
  {
  }

  /** `Block.positionEquals`: two blocks stand on the same cell exactly when
      both coordinates agree. */
  function PositionEquals(a: Cell, b: Cell): (r: bool)
    ensures r <==> a == b
  {
    a.x == b.x && a.y == b.y
  }
}
