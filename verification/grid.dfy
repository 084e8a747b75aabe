/** The playing field: a square grid of cells, the four headings and one step of movement. */
module Grid {

  /** Number of cells along each side of the board. */
  const GridCount: int := 20

  /** A board cell; coordinates are plain integers so that a step off the board is representable. */
  datatype Cell = Cell(x: int, y: int)

  datatype Direction = Up | Down | Left | Right

  predicate InBounds(c: Cell) {
    0 <= c.x < GridCount && 0 <= c.y < GridCount
  }

  function Abs(n: int): nat {
    if n < 0 then -n else n
  }

  /** Two cells share an edge. */
  predicate Adjacent(a: Cell, b: Cell) {
    Abs(a.x - b.x) + Abs(a.y - b.y) == 1
  }

  /** The heading that undoes `d`: Up/Down and Left/Right are the opposite pairs. */
  function Opposite(d: Direction): (o: Direction)
    ensures o != d
  {
    match d
    case Up => Down
    case Down => Up
    case Left => Right
    case Right => Left
  }

  /** The cell one unit away from `c` in heading `d` (y grows downwards). */
  function Step(c: Cell, d: Direction): (n: Cell)
    ensures Adjacent(c, n)
  {
    match d
    case Up => c.(y := c.y - 1)
    case Down => c.(y := c.y + 1)
    case Left => c.(x := c.x - 1)
    case Right => c.(x := c.x + 1)
  }

  lemma OppositeIsInvolution(d: Direction)
    ensures Opposite(Opposite(d)) == d
  {
  }

  /** Stepping back in the opposite heading returns to the starting cell. */
  lemma StepThenOppositeReturns(c: Cell, d: Direction)
    ensures Step(Step(c, d), Opposite(d)) == c
  {
  }
}
