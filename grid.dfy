/** The fixed-size cell grid shared by the simulator, the rasterizer and the
    pattern library. The program's grid is a 100 x 100 array of booleans indexed
    grid[y][x]; here it is an `array2<bool>` indexed `grid[y, x]`, and `Board` is
    its value (a snapshot of every cell), on which the specifications are stated. */
module Grid {

  const Width: nat := 100
  const Height: nat := 100

  /** Height rows of Width cells each. */
  predicate IsBoard(b: seq<seq<bool>>) {
    |b| == Height && forall y :: 0 <= y < |b| ==> |b[y]| == Width
  }

  /** The value of a grid: b[y][x] is the cell in column x of row y. */
  type Board = b: seq<seq<bool>> | IsBoard(b) witness seq(Height, _ => seq(Width, _ => false))

  /** The all-dead board, as the program creates its grid. */
  const Blank: Board := seq(Height, _ => seq(Width, _ => false))

  /** A grid has the program's fixed dimensions. */
  predicate IsGrid(g: array2<bool>) {
    g.Length0 == Height && g.Length1 == Width
  }

  /** The board held by a grid. */
  ghost function Cells(g: array2<bool>): (b: Board)
    requires IsGrid(g)
    reads g
    ensures forall y, x :: 0 <= y < Height && 0 <= x < Width ==> b[y][x] == g[y, x]
  {
    seq(Height, y requires 0 <= y < Height reads g =>
      seq(Width, x requires 0 <= x < Width reads g => g[y, x]))
  }

  /** Whether (x, y) is a live cell; every position outside the grid counts as dead. */
  predicate Live(b: Board, x: int, y: int) {
    0 <= x < Width && 0 <= y < Height && b[y][x]
  }

  /** Two boards that agree on every cell are equal. */
  lemma BoardsEqual(b1: Board, b2: Board)
    requires forall y, x :: 0 <= y < Height && 0 <= x < Width ==> b1[y][x] == b2[y][x]
    ensures b1 == b2
  {
    forall y | 0 <= y < Height
      ensures b1[y] == b2[y]
    {
    }
  }
}
