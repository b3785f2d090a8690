/** Small patterns from the pattern library under the Game-of-Life step, each
    alone on an otherwise dead grid and clear of its edges: the block is a
    still life and the blinker has period 2. */
module Oscillators {
  import opened Grid
  import opened Simulator
  import opened Placement

  /** The block placed on a dead grid is alive exactly on its 2 x 2 square. */
  lemma BlockCells(x: nat, y: nat)
    requires x + 1 < Width && y + 1 < Height
    ensures forall p, q :: Live(Placed(Blank, BlockPattern, x, y), p, q) <==>
      x <= p <= x + 1 && y <= q <= y + 1
  {
    var b := Placed(Blank, BlockPattern, x, y);
    forall p, q
      ensures Live(b, p, q) <==> x <= p <= x + 1 && y <= q <= y + 1
    {
      if 0 <= p < Width && 0 <= q < Height {
        assert !Blank[q][p];
        if x <= p <= x + 1 && y <= q <= y + 1 {
          assert (p - x, q - y) in BlockPattern;
        }
      }
    }
  }

  /** A block alone on the grid is a still life. */
  lemma BlockIsStill(x: nat, y: nat)
    requires x + 1 < Width && y + 1 < Height
    ensures Step(Placed(Blank, BlockPattern, x, y)) == Placed(Blank, BlockPattern, x, y)
  {
    var b := Placed(Blank, BlockPattern, x, y);
    BlockCells(x, y);
    forall r, c | 0 <= r < Height && 0 <= c < Width
      ensures Step(b)[r][c] == b[r][c]
    {
      NeighborCountIsSum(b, c, r);
      assert b[r][c] == Live(b, c, r);
    }
    BoardsEqual(Step(b), b);
  }

  /** The blinker's other phase: three cells in a column. */
  const BlinkerColumn: Pattern := [(0, 0), (0, 1), (0, 2)]

  /** The blinker placed on a dead grid is alive exactly on its row of three. */
  lemma BlinkerRowCells(x: nat, y: nat)
    requires x + 2 < Width && y < Height
    ensures forall p, q :: Live(Placed(Blank, BlinkerPattern, x, y), p, q) <==>
      x <= p <= x + 2 && q == y
  {
    var b := Placed(Blank, BlinkerPattern, x, y);
    forall p, q
      ensures Live(b, p, q) <==> x <= p <= x + 2 && q == y
    {
      if 0 <= p < Width && 0 <= q < Height {
        assert !Blank[q][p];
        if x <= p <= x + 2 && q == y {
          assert (p - x, q - y) in BlinkerPattern;
        }
      }
    }
  }

  /** The column phase on a dead grid is alive exactly on its column of three. */
  lemma BlinkerColumnCells(x: nat, y: nat)
    requires x < Width && y + 2 < Height
    ensures forall p, q :: Live(Placed(Blank, BlinkerColumn, x, y), p, q) <==>
      p == x && y <= q <= y + 2
  {
    var b := Placed(Blank, BlinkerColumn, x, y);
    forall p, q
      ensures Live(b, p, q) <==> p == x && y <= q <= y + 2
    {
      if 0 <= p < Width && 0 <= q < Height {
        assert !Blank[q][p];
        if p == x && y <= q <= y + 2 {
          assert (p - x, q - y) in BlinkerColumn;
        }
      }
    }
  }

  /** One cell of a board holding just a row of three, one generation on: it
      holds just the column of three through the row's middle cell. */
  lemma RowTurnsAt(row: Board, column: Board, x: int, y: int, c: int, r: int)
    requires forall p, q :: Live(row, p, q) <==> x <= p <= x + 2 && q == y
    requires forall p, q :: Live(column, p, q) <==> p == x + 1 && y - 1 <= q <= y + 1
    requires 0 <= r < Height && 0 <= c < Width
    ensures Step(row)[r][c] == column[r][c]
  {
    NeighborCountIsSum(row, c, r);
    assert row[r][c] == Live(row, c, r);
    assert column[r][c] == Live(column, c, r);
  }

  /** One cell of a board holding just a column of three, one generation on:
      it holds just the row of three through the column's middle cell. */
  lemma ColumnTurnsAt(row: Board, column: Board, x: int, y: int, c: int, r: int)
    requires forall p, q :: Live(row, p, q) <==> x <= p <= x + 2 && q == y
    requires forall p, q :: Live(column, p, q) <==> p == x + 1 && y - 1 <= q <= y + 1
    requires 0 <= r < Height && 0 <= c < Width
    ensures Step(column)[r][c] == row[r][c]
  {
    NeighborCountIsSum(column, c, r);
    assert row[r][c] == Live(row, c, r);
    assert column[r][c] == Live(column, c, r);
  }

  /** A blinker row alone on the grid turns into a column about its middle cell ... */
  lemma BlinkerRowTurns(x: nat, y: nat)
    requires x + 2 < Width && 1 <= y && y + 1 < Height
    ensures Step(Placed(Blank, BlinkerPattern, x, y)) == Placed(Blank, BlinkerColumn, x + 1, y - 1)
  {
    var row, column := Placed(Blank, BlinkerPattern, x, y), Placed(Blank, BlinkerColumn, x + 1, y - 1);
    BlinkerRowCells(x, y);
    BlinkerColumnCells(x + 1, y - 1);
    forall r, c | 0 <= r < Height && 0 <= c < Width
      ensures Step(row)[r][c] == column[r][c]
    {
      RowTurnsAt(row, column, x, y, c, r);
    }
    BoardsEqual(Step(row), column);
  }

  /** ... and the column turns back into the row. */
  lemma BlinkerColumnTurns(x: nat, y: nat)
    requires x + 2 < Width && 1 <= y && y + 1 < Height
    ensures Step(Placed(Blank, BlinkerColumn, x + 1, y - 1)) == Placed(Blank, BlinkerPattern, x, y)
  {
    var row, column := Placed(Blank, BlinkerPattern, x, y), Placed(Blank, BlinkerColumn, x + 1, y - 1);
    BlinkerRowCells(x, y);
    BlinkerColumnCells(x + 1, y - 1);
    forall r, c | 0 <= r < Height && 0 <= c < Width
      ensures Step(column)[r][c] == row[r][c]
    {
      ColumnTurnsAt(row, column, x, y, c, r);
    }
    BoardsEqual(Step(column), row);
  }

  /** A blinker alone on the grid has period 2. */
  lemma BlinkerOscillates(x: nat, y: nat)
    requires x + 2 < Width && 1 <= y && y + 1 < Height
    ensures Step(Step(Placed(Blank, BlinkerPattern, x, y))) == Placed(Blank, BlinkerPattern, x, y)
    ensures Step(Placed(Blank, BlinkerPattern, x, y)) != Placed(Blank, BlinkerPattern, x, y)
  {
    BlinkerRowTurns(x, y);
    BlinkerColumnTurns(x, y);
    BlinkerRowCells(x, y);
    BlinkerColumnCells(x + 1, y - 1);
    assert !Live(Placed(Blank, BlinkerColumn, x + 1, y - 1), x, y);
  }
}
