/** The pattern library: each named shape is a table of (dx, dy) offsets, and
    placing it at an anchor (x, y) sets every cell (x + dx, y + dy) that lies
    inside the grid alive, silently dropping the offsets that fall outside. */
module Placement {
  import opened Grid

  /** Offsets relative to the anchor, in the order the program lists them. */
  type Pattern = seq<(nat, nat)>

  const BlockPattern: Pattern := [(0, 0), (1, 0), (0, 1), (1, 1)]
  const BeehivePattern: Pattern := [(1, 0), (2, 0), (0, 1), (3, 1), (1, 2), (2, 2)]
  const LoafPattern: Pattern := [(1, 0), (2, 0), (0, 1), (3, 1), (1, 2), (3, 2), (2, 3)]
  const BoatPattern: Pattern := [(0, 0), (1, 0), (0, 1), (2, 1), (1, 2)]
  const BlinkerPattern: Pattern := [(0, 0), (1, 0), (2, 0)]
  const ToadPattern: Pattern := [(1, 0), (2, 0), (3, 0), (0, 1), (1, 1), (2, 1)]
  const BeaconPattern: Pattern := [(0, 0), (1, 0), (0, 1), (3, 2), (2, 3), (3, 3)]
  const GliderPattern: Pattern := [(1, 0), (2, 1), (0, 2), (1, 2), (2, 2)]
  const LwssPattern: Pattern := [(1, 0), (2, 0), (3, 0), (4, 0), (0, 1), (0, 2), (4, 2), (1, 3), (4, 3)]
  const GliderGunPattern: Pattern := [
    (0, 4), (0, 5), (1, 4), (1, 5),
    (10, 4), (10, 5), (10, 6), (11, 3), (11, 7), (12, 2), (12, 8), (13, 2), (13, 8),
    (14, 5), (15, 3), (15, 7), (16, 4), (16, 5), (16, 6), (17, 5),
    (20, 2), (20, 3), (20, 4), (21, 2), (21, 3), (21, 4), (22, 1), (22, 5),
    (24, 0), (24, 1), (24, 5), (24, 6),
    (34, 2), (34, 3), (35, 2), (35, 3)]

  /** Whether some offset of the pattern, anchored at (x, y), lands on (col, row). */
  predicate Covers(pattern: Pattern, x: nat, y: nat, col: int, row: int) {
    col >= x && row >= y && (col - x, row - y) in pattern
  }

  /** The board with cell (col, row) set alive; a position off the grid is ignored. */
  function Raise(b: Board, col: nat, row: nat): (r: Board)
    ensures forall y, x :: 0 <= y < Height && 0 <= x < Width ==>
      r[y][x] == (b[y][x] || (x == col && y == row))
  {
    if col < Width && row < Height then b[row := b[row][col := true]] else b
  }

  /** The board after placing the pattern's offsets one after the other. A
      cell is alive afterwards exactly when it was alive before or an offset
      lands on it: placement never clears a cell, and an offset that lands
      outside the grid has no effect. */
  function Placed(b: Board, pattern: Pattern, x: nat, y: nat): (r: Board)
    ensures forall row, col :: 0 <= row < Height && 0 <= col < Width ==>
      (r[row][col] <==> b[row][col] || Covers(pattern, x, y, col, row))
    decreases |pattern|
  {
    if pattern == [] then b
    else
      var init, o := pattern[..|pattern| - 1], pattern[|pattern| - 1];
      assert pattern == init + [o];
      Raise(Placed(b, init, x, y), x + o.0, y + o.1)
  }

  /** The loop every placement runs: for each offset in turn, set the cell
      alive when it lies inside the grid and skip it otherwise. */
  method Place(grid: array2<bool>, pattern: Pattern, x: nat, y: nat)
    requires IsGrid(grid)
    modifies grid
    ensures Cells(grid) == Placed(old(Cells(grid)), pattern, x, y)
  {
    ghost var b := Cells(grid);
    for i := 0 to |pattern|
      invariant Cells(grid) == Placed(b, pattern[..i], x, y)
    {
      var (dx, dy) := pattern[i];
      ghost var before := Cells(grid);
      if x + dx < Width && y + dy < Height {
        grid[y + dy, x + dx] := true;
      }
      assert pattern[..i + 1][..i] == pattern[..i];
      BoardsEqual(Cells(grid), Raise(before, x + dx, y + dy));
    }
    assert pattern[..|pattern|] == pattern;
  }

  method AddGlider(grid: array2<bool>, x: nat, y: nat)
    requires IsGrid(grid)
    modifies grid
    ensures Cells(grid) == Placed(old(Cells(grid)), GliderPattern, x, y)
  {
    Place(grid, GliderPattern, x, y);
  }

  method AddBlinker(grid: array2<bool>, x: nat, y: nat)
    requires IsGrid(grid)
    modifies grid
    ensures Cells(grid) == Placed(old(Cells(grid)), BlinkerPattern, x, y)
  {
    Place(grid, BlinkerPattern, x, y);
  }

  method AddBlock(grid: array2<bool>, x: nat, y: nat)
    requires IsGrid(grid)
    modifies grid
    ensures Cells(grid) == Placed(old(Cells(grid)), BlockPattern, x, y)
  {
    Place(grid, BlockPattern, x, y);
  }

  method AddBeehive(grid: array2<bool>, x: nat, y: nat)
    requires IsGrid(grid)
    modifies grid
    ensures Cells(grid) == Placed(old(Cells(grid)), BeehivePattern, x, y)
  {
    Place(grid, BeehivePattern, x, y);
  }

  method AddLoaf(grid: array2<bool>, x: nat, y: nat)
    requires IsGrid(grid)
    modifies grid
    ensures Cells(grid) == Placed(old(Cells(grid)), LoafPattern, x, y)
  {
    Place(grid, LoafPattern, x, y);
  }

  method AddBoat(grid: array2<bool>, x: nat, y: nat)
    requires IsGrid(grid)
    modifies grid
    ensures Cells(grid) == Placed(old(Cells(grid)), BoatPattern, x, y)
  {
    Place(grid, BoatPattern, x, y);
  }

  method AddToad(grid: array2<bool>, x: nat, y: nat)
    requires IsGrid(grid)
    modifies grid
    ensures Cells(grid) == Placed(old(Cells(grid)), ToadPattern, x, y)
  {
    Place(grid, ToadPattern, x, y);
  }

  method AddBeacon(grid: array2<bool>, x: nat, y: nat)
    requires IsGrid(grid)
    modifies grid
    ensures Cells(grid) == Placed(old(Cells(grid)), BeaconPattern, x, y)
  {
    Place(grid, BeaconPattern, x, y);
  }

  method AddLwss(grid: array2<bool>, x: nat, y: nat)
    requires IsGrid(grid)
    modifies grid
    ensures Cells(grid) == Placed(old(Cells(grid)), LwssPattern, x, y)
  {
    Place(grid, LwssPattern, x, y);
  }

  method AddGliderGun(grid: array2<bool>, x: nat, y: nat)
    requires IsGrid(grid)
    modifies grid
    ensures Cells(grid) == Placed(old(Cells(grid)), GliderGunPattern, x, y)
  {
    Place(grid, GliderGunPattern, x, y);
  }

  // ---------------------------------------------------------------------------
  // Properties of placement

  /** Placing the same pattern at the same anchor twice is the same as once. */
  lemma PlacedIdempotent(b: Board, pattern: Pattern, x: nat, y: nat)
    ensures Placed(Placed(b, pattern, x, y), pattern, x, y) == Placed(b, pattern, x, y)
  {
    BoardsEqual(Placed(Placed(b, pattern, x, y), pattern, x, y), Placed(b, pattern, x, y));
  }

  /** Two placements give the same board in either order. */
  lemma PlacedCommute(b: Board, p: Pattern, x1: nat, y1: nat, q: Pattern, x2: nat, y2: nat)
    ensures Placed(Placed(b, p, x1, y1), q, x2, y2) == Placed(Placed(b, q, x2, y2), p, x1, y1)
  {
    BoardsEqual(Placed(Placed(b, p, x1, y1), q, x2, y2), Placed(Placed(b, q, x2, y2), p, x1, y1));
  }

  /** An anchor outside the grid drops every offset: the board is unchanged. */
  lemma PlacedOffGrid(b: Board, pattern: Pattern, x: nat, y: nat)
    requires x >= Width || y >= Height
    ensures Placed(b, pattern, x, y) == b
  {
    BoardsEqual(Placed(b, pattern, x, y), b);
  }

  /** One placement request: a pattern and its anchor. */
  datatype Request = Request(pattern: Pattern, x: nat, y: nat)

  /** The board after a list of placements, performed in order. A cell is
      alive exactly when it was alive before or some request covers it. */
  function PlaceAll(b: Board, requests: seq<Request>): (r: Board)
    ensures forall row, col :: 0 <= row < Height && 0 <= col < Width ==>
      (r[row][col] <==>
        (b[row][col] ||
         exists i :: 0 <= i < |requests| && Covers(requests[i].pattern, requests[i].x, requests[i].y, col, row)))
    decreases |requests|
  {
    if requests == [] then b
    else
      var init, last := requests[..|requests| - 1], requests[|requests| - 1];
      var r := Placed(PlaceAll(b, init), last.pattern, last.x, last.y);
      assert forall i :: 0 <= i < |init| ==> init[i] == requests[i];
      r
  }

  /** The result of a list of placements depends only on which requests it
      holds, not on their order or repetition. */
  lemma PlaceAllOrderIrrelevant(b: Board, requests: seq<Request>, others: seq<Request>)
    requires forall q :: q in requests <==> q in others
    ensures PlaceAll(b, requests) == PlaceAll(b, others)
  {
    forall row, col | 0 <= row < Height && 0 <= col < Width
      ensures PlaceAll(b, requests)[row][col] == PlaceAll(b, others)[row][col]
    {
      if i :| 0 <= i < |requests| && Covers(requests[i].pattern, requests[i].x, requests[i].y, col, row) {
        assert requests[i] in others;
        var j :| 0 <= j < |others| && others[j] == requests[i];
      }
      if j :| 0 <= j < |others| && Covers(others[j].pattern, others[j].x, others[j].y, col, row) {
        assert others[j] in requests;
        var i :| 0 <= i < |requests| && requests[i] == others[j];
      }
    }
    BoardsEqual(PlaceAll(b, requests), PlaceAll(b, others));
  }
}
