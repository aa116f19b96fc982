/**
 * A single grid unit of the maze: four borders, a visited flag and the
 * (row, column) address the cell was created with.
 */
module Cells {

  /** The state of one edge of a cell. */
  datatype Border = Passage | Wall

  /** The four sides of a cell, and the four directions the generator can move in. */
  datatype Direction = Left | Up | Right | Down

  /** The direction that points back across the same shared border. */
  function Opposite(d: Direction): (o: Direction)
    ensures o != d
  {
    match d
    case Left => Right
    case Up => Down
    case Right => Left
    case Down => Up
  }

  /** Crossing a border and crossing it back leads to the same side. */
  lemma OppositeInvolutive(d: Direction)
    ensures Opposite(Opposite(d)) == d
  {
  }

  datatype Cell = Cell(left: Border, up: Border, right: Border, down: Border,
                       visited: bool, rowIndex: nat, colIndex: nat)
  {
    /** The border on side `d`. */
    function Side(d: Direction): Border {
      match d
      case Left => left
      case Up => up
      case Right => right
      case Down => down
    }

    predicate FullyWalled() {
      forall d: Direction :: Side(d) == Wall
    }

    /** The same cell with side `d` opened; this is the per-cell half of setting a passage. */
    function OpenSide(d: Direction): (c: Cell)
      ensures c.Side(d) == Passage
      ensures forall e: Direction :: e != d ==> c.Side(e) == Side(e)
      ensures c.visited == visited && c.rowIndex == rowIndex && c.colIndex == colIndex
    {
      match d
      case Left => this.(left := Passage)
      case Up => this.(up := Passage)
      case Right => this.(right := Passage)
      case Down => this.(down := Passage)
    }
  }

  /** A freshly created cell: walled on every side, not yet visited. */
  function NewCell(row: nat, col: nat): (c: Cell)
    ensures c.FullyWalled()
    ensures !c.visited
    ensures c.rowIndex == row && c.colIndex == col
  {
    Cell(Wall, Wall, Wall, Wall, false, row, col)
  }

}
