/** Cells, the four cardinal directions and their fixed deltas and codes.
    The grid uses y-down screen coordinates: north decreases y. */
module Geometry {

  /** An integer grid coordinate (the source's sf::Vector2i). */
  datatype Cell = Cell(x: int, y: int)

  datatype Direction = North | East | South | West

  /** The order in which the bot enumerates candidate moves and neighbours. */
  const Directions: seq<Direction> := [North, East, South, West]

  /** The unit vector of a direction (getDirectionVector). */
  function Delta(d: Direction): (v: Cell)
    ensures Abs(v.x) + Abs(v.y) == 1
  {
    match d
    case North => Cell(0, -1)
    case East => Cell(1, 0)
    case South => Cell(0, 1)
    case West => Cell(-1, 0)
  }

  /** `position + getDirectionVector(d)` */
  function Step(c: Cell, d: Direction): (n: Cell)
    ensures Adjacent(c, n)
  {
    Cell(c.x + Delta(d).x, c.y + Delta(d).y)
  }

  function Abs(n: int): nat { if n < 0 then -n else n }

  /** Two cells are 4-connected neighbours. */
  predicate Adjacent(a: Cell, b: Cell) {
    Abs(a.x - b.x) + Abs(a.y - b.y) == 1
  }

  /** Every neighbour of a cell is reached by exactly one of the four steps. */
  lemma AdjacentIsStep(a: Cell, b: Cell) returns (d: Direction)
    requires Adjacent(a, b)
    ensures Step(a, d) == b
  {
    if b.x == a.x + 1 { d := East; }
    else if b.x == a.x - 1 { d := West; }
    else if b.y == a.y + 1 { d := South; }
    else { d := North; }
  }

  /** The external code of a direction (getDirectionValue). The values are
      an assumed stand-in for the definition in utils.h; only their
      distinctness is relied on. */
  function DirectionValue(d: Direction): (code: int)
    ensures 0 <= code < 4
    ensures Directions[code] == d
  {
    match d
    case North => 0
    case East => 1
    case South => 2
    case West => 3
  }
}
