/** One generation of Conway's Game of Life on the fixed, non-wrapping grid:
    the Moore-neighbourhood count and the birth/survival rule. */
module Simulator {
  import opened Grid

  /** The program's neighbour counter is a `u8`. */
  type U8 = n: int | 0 <= n < 256

  /** The live cells among the up-to-8 in-bounds Moore neighbours of (x, y).
      The cell itself is excluded and nothing wraps around the edges. */
  ghost function LiveNeighbours(b: Board, x: int, y: int): set<(int, int)>
  {
    set nx, ny | x - 1 <= nx <= x + 1 && y - 1 <= ny <= y + 1 && (nx, ny) != (x, y) && Live(b, nx, ny)
      :: (nx, ny)
  }

  /** The number of live neighbours of (x, y). */
  ghost function NeighborCount(b: Board, x: int, y: int): nat
  {
    |LiveNeighbours(b, x, y)|
  }

  /** The birth/survival rule: a live cell with 2 or 3 live neighbours stays
      alive, a dead cell with exactly 3 becomes alive, every other cell is dead. */
  function NextCell(alive: bool, neighbors: nat): bool
  {
    match (alive, neighbors)
    case (true, 2) | (true, 3) => true
    case (false, 3) => true
    case _ => false
  }

  /** The next generation: every cell is computed from `b` alone. */
  ghost function Step(b: Board): (r: Board)
    ensures forall y, x :: 0 <= y < Height && 0 <= x < Width ==>
      (r[y][x] <==> NeighborCount(b, x, y) == 3 || (b[y][x] && NeighborCount(b, x, y) == 2))
  {
    seq(Height, y requires 0 <= y < Height =>
      seq(Width, x requires 0 <= x < Width => NextCell(b[y][x], NeighborCount(b, x, y))))
  }

  // ---------------------------------------------------------------------------
  // The count as a sum over the eight positions around a cell

  /** 1 for a live cell, 0 for a dead or off-grid one. */
  function Alive01(b: Board, x: int, y: int): nat
  {
    if Live(b, x, y) then 1 else 0
  }

  /** The three positions of row y from column x - 1 to x + 1. */
  function RowOfThree(x: int, y: int): set<(int, int)>
  {
    {(x - 1, y), (x, y), (x + 1, y)}
  }

  /** The eight positions around (x, y): the row above, the two cells beside,
      and the row below. The cell itself is not among them. */
  function Around(x: int, y: int): set<(int, int)>
  {
    RowOfThree(x, y - 1) + {(x - 1, y), (x + 1, y)} + RowOfThree(x, y + 1)
  }

  /** The live cells among the positions ps; positions off the grid count as dead. */
  ghost function LiveAmong(b: Board, ps: set<(int, int)>): set<(int, int)>
  {
    set p | p in ps && Live(b, p.0, p.1)
  }

  /** Adding a position to the ones looked at adds one live cell exactly when
      that position is live. */
  lemma LiveAmongAdd(b: Board, ps: set<(int, int)>, p: (int, int))
    requires p !in ps
    ensures |LiveAmong(b, ps + {p})| == |LiveAmong(b, ps)| + Alive01(b, p.0, p.1)
  {
    if Live(b, p.0, p.1) {
      assert LiveAmong(b, ps + {p}) == LiveAmong(b, ps) + {p};
    } else {
      assert LiveAmong(b, ps + {p}) == LiveAmong(b, ps);
    }
  }

  /** The live neighbours are the live cells among the eight positions around. */
  lemma NeighboursAround(b: Board, x: int, y: int)
    ensures LiveNeighbours(b, x, y) == LiveAmong(b, Around(x, y))
  {
    forall p | p in LiveAmong(b, Around(x, y))
      ensures p in LiveNeighbours(b, x, y)
    {
      var (nx, ny) := p;
      assert (nx, ny) in LiveNeighbours(b, x, y);
    }
  }

  /** Looking at two disjoint groups of positions finds the live cells of each. */
  lemma LiveAmongDisjoint(b: Board, ps: set<(int, int)>, qs: set<(int, int)>)
    requires ps !! qs
    ensures |LiveAmong(b, ps + qs)| == |LiveAmong(b, ps)| + |LiveAmong(b, qs)|
  {
    assert LiveAmong(b, ps + qs) == LiveAmong(b, ps) + LiveAmong(b, qs);
    assert LiveAmong(b, ps) * LiveAmong(b, qs) == {};
  }

  /** The live cells of a row of three, counted one by one. */
  lemma RowCount(b: Board, x: int, y: int)
    ensures |LiveAmong(b, RowOfThree(x, y))| == Alive01(b, x - 1, y) + Alive01(b, x, y) + Alive01(b, x + 1, y)
  {
    var none: set<(int, int)> := {};
    assert LiveAmong(b, none) == {};
    LiveAmongAdd(b, none, (x - 1, y));
    LiveAmongAdd(b, {(x - 1, y)}, (x, y));
    LiveAmongAdd(b, {(x - 1, y), (x, y)}, (x + 1, y));
    assert none + {(x - 1, y)} == {(x - 1, y)};
    assert {(x - 1, y)} + {(x, y)} == {(x - 1, y), (x, y)};
    assert {(x - 1, y), (x, y)} + {(x + 1, y)} == RowOfThree(x, y);
  }

  /** The count is the sum over the eight surrounding positions. */
  lemma NeighborCountIsSum(b: Board, x: int, y: int)
    ensures NeighborCount(b, x, y) ==
      Alive01(b, x - 1, y - 1) + Alive01(b, x, y - 1) + Alive01(b, x + 1, y - 1) +
      Alive01(b, x - 1, y) + Alive01(b, x + 1, y) +
      Alive01(b, x - 1, y + 1) + Alive01(b, x, y + 1) + Alive01(b, x + 1, y + 1)
  {
    var above, below := RowOfThree(x, y - 1), RowOfThree(x, y + 1);
    var beside: set<(int, int)> := {(x - 1, y), (x + 1, y)};
    RowCount(b, x, y - 1);
    RowCount(b, x, y + 1);
    var left: set<(int, int)> := {(x - 1, y)};
    assert LiveAmong(b, {}) == {};
    LiveAmongAdd(b, {}, (x - 1, y));
    LiveAmongAdd(b, left, (x + 1, y));
    assert left + {(x + 1, y)} == beside;
    LiveAmongDisjoint(b, above, beside);
    LiveAmongDisjoint(b, above + beside, below);
    NeighboursAround(b, x, y);
  }

  // ---------------------------------------------------------------------------
  // The scan that the counter performs

  /** What the counter adds at offset (dx, dy): one for a live cell in the
      grid other than the centre, nothing otherwise. */
  function Visit(b: Board, x: int, y: int, dx: int, dy: int): nat
  {
    if (dx, dy) == (0, 0) then 0 else Alive01(b, x + dx, y + dy)
  }

  /** The count the counter has reached at offset (dx, dy) of its scan: the
      rows above dy, and row dy left of dx. */
  function ScanSoFar(b: Board, x: int, y: int, dx: int, dy: int): (n: nat)
    ensures n <= 8
  {
    (if -1 < dy then Visit(b, x, y, -1, -1) + Visit(b, x, y, 0, -1) + Visit(b, x, y, 1, -1) else 0) +
    (if 0 < dy then Visit(b, x, y, -1, 0) + Visit(b, x, y, 1, 0) else 0) +
    (if 1 < dy then Visit(b, x, y, -1, 1) + Visit(b, x, y, 0, 1) + Visit(b, x, y, 1, 1) else 0) +
    (if -1 <= dy <= 1 && -1 < dx then Visit(b, x, y, -1, dy) else 0) +
    (if -1 <= dy <= 1 && 0 < dx then Visit(b, x, y, 0, dy) else 0) +
    (if -1 <= dy <= 1 && 1 < dx then Visit(b, x, y, 1, dy) else 0)
  }

  /** Visiting offset (dx, dy) of the grid adds what the counter adds there. */
  lemma ScanVisit(grid: array2<bool>, x: int, y: int, dx: int, dy: int)
    requires IsGrid(grid)
    requires -1 <= dx <= 1 && -1 <= dy <= 1
    ensures ScanSoFar(Cells(grid), x, y, dx + 1, dy) == ScanSoFar(Cells(grid), x, y, dx, dy) +
      if (dx, dy) != (0, 0) && 0 <= x + dx < Width && 0 <= y + dy < Height && grid[y + dy, x + dx] then 1 else 0
  {
  }

  /** At the end of the scan, the count is the neighbour count. */
  lemma ScanComplete(b: Board, x: int, y: int)
    ensures ScanSoFar(b, x, y, -1, 2) == NeighborCount(b, x, y) <= 8
  {
    NeighborCountIsSum(b, x, y);
  }

  /** The counter, as the program runs it: it looks at the nine positions of
      the 3 x 3 window around (x, y), skips the centre and every position off
      the grid, and adds one for each live cell it finds. */
  method CountNeighbors(grid: array2<bool>, x: nat, y: nat) returns (count: U8)
    requires IsGrid(grid)
    ensures count == NeighborCount(Cells(grid), x, y)
    ensures count <= 8
  {
    ghost var b := Cells(grid);
    count := 0;
    for dy := -1 to 2
      invariant count == ScanSoFar(b, x, y, -1, dy)
    {
      for dx := -1 to 2
        invariant count == ScanSoFar(b, x, y, dx, dy)
      {
        ScanVisit(grid, x, y, dx, dy);
        if dx == 0 && dy == 0 {
          continue;
        }
        var nx := x + dx;
        var ny := y + dy;
        if nx >= 0 && ny >= 0 && nx < Width && ny < Height {
          if grid[ny, nx] {
            count := count + 1;
          }
        }
      }
    }
    ScanComplete(b, x, y);
  }

  /** One generation, as the program computes it: a fresh grid filled cell by
      cell from the current one, which is left untouched. */
  method StepGrid(current: array2<bool>) returns (next: array2<bool>)
    requires IsGrid(current)
    ensures fresh(next) && IsGrid(next)
    ensures Cells(next) == Step(Cells(current))
  {
    ghost var b := Cells(current);
    next := new bool[Height, Width]((_, _) => false);
    for y := 0 to Height
      invariant forall r, c :: 0 <= r < y && 0 <= c < Width ==>
        next[r, c] == NextCell(b[r][c], NeighborCount(b, c, r))
    {
      for x := 0 to Width
        invariant forall r, c :: 0 <= r < Height && 0 <= c < Width && (r < y || (r == y && c < x)) ==>
          next[r, c] == NextCell(b[r][c], NeighborCount(b, c, r))
      {
        var alive := current[y, x];
        var neighbors := CountNeighbors(current, x, y);
        next[y, x] := NextCell(alive, neighbors);
      }
    }
    BoardsEqual(Cells(next), Step(b));
  }

  // ---------------------------------------------------------------------------
  // Properties of the count and of the rule

  /** A corner cell has only three neighbours inside the grid. */
  lemma CornerNeighbours(b: Board, x: int, y: int)
    requires (x == 0 || x == Width - 1) && (y == 0 || y == Height - 1)
    ensures NeighborCount(b, x, y) <= 3
  {
    NeighborCountIsSum(b, x, y);
  }

  /** The counter fits its `u8`: at most 8 live neighbours, at most 3 at a corner. */
  lemma NeighborCountBounds(b: Board, x: int, y: int)
    ensures NeighborCount(b, x, y) <= 8
    ensures (x == 0 || x == Width - 1) && (y == 0 || y == Height - 1) ==> NeighborCount(b, x, y) <= 3
  {
    NeighborCountIsSum(b, x, y);
  }

  /** The count does not look at the cell itself. */
  lemma NeighborCountIgnoresSelf(b: Board, x: int, y: int, v: bool)
    requires 0 <= x < Width && 0 <= y < Height
    ensures NeighborCount(b[y := b[y][x := v]], x, y) == NeighborCount(b, x, y)
  {
    assert LiveNeighbours(b[y := b[y][x := v]], x, y) == LiveNeighbours(b, x, y);
  }

  /** Underpopulation: with 0 or 1 live neighbours a cell is dead next,
      whatever its state. */
  lemma Underpopulation(b: Board, x: int, y: int)
    requires 0 <= x < Width && 0 <= y < Height
    requires NeighborCount(b, x, y) <= 1
    ensures !Step(b)[y][x]
  {
  }

  /** Overpopulation: with 4 or more live neighbours a cell is dead next,
      whatever its state. */
  lemma Overpopulation(b: Board, x: int, y: int)
    requires 0 <= x < Width && 0 <= y < Height
    requires NeighborCount(b, x, y) >= 4
    ensures !Step(b)[y][x]
  {
  }
}
