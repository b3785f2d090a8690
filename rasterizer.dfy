/** The rasterizer: each cell of the grid becomes a Scale x Scale block of
    identical pixels in a flat, row-major buffer of packed 0xRRGGBB colours.
    A dead cell is the background colour; a live cell takes a palette colour
    chosen by (x + y) mod 8. */
module Rasterizer {
  import opened Grid

  /** The program's pixel values are `u32`. */
  type U32 = n: int | 0 <= n < 0x1_0000_0000

  const Scale: nat := 5
  /** Pixels per buffer row. */
  const PixelWidth: nat := Width * Scale
  const PixelHeight: nat := Height * Scale
  /** The length of the buffer the program allocates. */
  const BufferLen: nat := Width * Height * Scale * Scale

  const DeadColor: U32 := 0x1B1036
  const LiveColors: seq<U32> := [0xFFFF00, 0x00FFAA, 0xFF00FF, 0x00FFFF, 0xFFAA00, 0xAAFF00, 0xFF6666, 0x66AAFF]

  /** The colour of the cell at (x, y). */
  function CellColor(alive: bool, x: nat, y: nat): U32
  {
    if alive then LiveColors[(x + y) % |LiveColors|] else DeadColor
  }

  /** The buffer index of pixel (dx, dy) inside the block of cell (x, y). */
  function PixelIndex(x: nat, y: nat, dx: nat, dy: nat): nat
  {
    (y * Scale + dy) * PixelWidth + (x * Scale + dx)
  }

  /** The column and row of the cell whose block holds buffer index i. */
  function CellX(i: nat): nat { i % PixelWidth / Scale }
  function CellY(i: nat): nat { i / PixelWidth / Scale }

  /** The position of buffer index i inside its cell's block. */
  function OffsetX(i: nat): nat { i % PixelWidth % Scale }
  function OffsetY(i: nat): nat { i / PixelWidth % Scale }

  /** Splitting a number into quotient and remainder by a positive constant. */
  lemma DivPixelWidth(q: nat, r: nat)
    requires r < PixelWidth
    ensures (q * PixelWidth + r) / PixelWidth == q && (q * PixelWidth + r) % PixelWidth == r
  {
  }

  lemma DivScale(q: nat, r: nat)
    requires r < Scale
    ensures (q * Scale + r) / Scale == q && (q * Scale + r) % Scale == r
  {
  }

  /** The block layout is a bijection: the pixels of every cell's block lie in
      the buffer and lead back to that cell and offset. */
  lemma PixelIndexInverse(x: nat, y: nat, dx: nat, dy: nat)
    requires x < Width && y < Height && dx < Scale && dy < Scale
    ensures PixelIndex(x, y, dx, dy) < BufferLen
    ensures CellX(PixelIndex(x, y, dx, dy)) == x && CellY(PixelIndex(x, y, dx, dy)) == y
    ensures OffsetX(PixelIndex(x, y, dx, dy)) == dx && OffsetY(PixelIndex(x, y, dx, dy)) == dy
  {
    var px, py := x * Scale + dx, y * Scale + dy;
    DivPixelWidth(py, px);
    DivScale(x, dx);
    DivScale(y, dy);
  }

  /** ... and every buffer index is the pixel of some cell's block. */
  lemma PixelIndexCovers(i: nat)
    requires i < BufferLen
    ensures CellX(i) < Width && CellY(i) < Height && OffsetX(i) < Scale && OffsetY(i) < Scale
    ensures i == PixelIndex(CellX(i), CellY(i), OffsetX(i), OffsetY(i))
  {
  }

  /** Every buffer index belongs to the block of a cell inside the grid. */
  lemma BlocksInGrid()
    ensures forall i :: 0 <= i < BufferLen ==> CellX(i) < Width && CellY(i) < Height
  {
    forall i | 0 <= i < BufferLen
      ensures CellX(i) < Width && CellY(i) < Height
    {
      PixelIndexCovers(i);
    }
  }

  /** Whether the scan of the block of cell (x, y) has written buffer index i
      once it reaches offset (dx, dy): rows above dy, and row dy left of dx. */
  predicate Painted(i: int, x: nat, y: nat, dx: nat, dy: nat)
  {
    0 <= i < BufferLen && CellX(i) == x && CellY(i) == y &&
    (OffsetY(i) < dy || (OffsetY(i) == dy && OffsetX(i) < dx))
  }

  /** Visiting offset (dx, dy) of an in-grid cell adds exactly its pixel. */
  lemma PaintedNext(x: nat, y: nat, dx: nat, dy: nat)
    requires x < Width && y < Height && dx < Scale && dy < Scale
    ensures PixelIndex(x, y, dx, dy) < BufferLen
    ensures forall i :: Painted(i, x, y, dx + 1, dy) <==> Painted(i, x, y, dx, dy) || i == PixelIndex(x, y, dx, dy)
  {
    var p := PixelIndex(x, y, dx, dy);
    PixelIndexInverse(x, y, dx, dy);
    assert Painted(p, x, y, dx + 1, dy) && !Painted(p, x, y, dx, dy);
    forall i | i != p
      ensures Painted(i, x, y, dx + 1, dy) <==> Painted(i, x, y, dx, dy)
    {
      if 0 <= i < BufferLen && CellX(i) == x && CellY(i) == y {
        PixelIndexCovers(i);
        assert OffsetX(i) != dx || OffsetY(i) != dy;
      }
    }
  }

  /** A cell outside the grid has no pixels. */
  lemma PaintedNothing(x: nat, y: nat, dx: nat, dy: nat)
    requires x >= Width || y >= Height
    ensures forall i :: !Painted(i, x, y, dx, dy)
  {
    BlocksInGrid();
  }

  /** The image of a board: every pixel coloured after the cell whose block holds it. */
  function Frame(b: Board): (f: seq<U32>)
    ensures |f| == BufferLen
  {
    seq(BufferLen, i requires 0 <= i < BufferLen =>
      PixelIndexCovers(i);
      CellColor(b[CellY(i)][CellX(i)], CellX(i), CellY(i)))
  }

  /** Writes `color` into the block of cell (x, y), clipping every pixel that
      falls outside the image. Nothing outside that block changes; a cell
      outside the grid writes nothing. */
  method Point(buffer: array<U32>, x: nat, y: nat, color: U32)
    requires buffer.Length >= BufferLen
    modifies buffer
    ensures forall i :: 0 <= i < buffer.Length ==>
      buffer[i] == if i < BufferLen && CellX(i) == x && CellY(i) == y then color else old(buffer[i])
  {
    for dy := 0 to Scale
      invariant forall i :: 0 <= i < buffer.Length ==>
        buffer[i] == if Painted(i, x, y, 0, dy) then color else old(buffer[i])
    {
      for dx := 0 to Scale
        invariant forall i :: 0 <= i < buffer.Length ==>
          buffer[i] == if Painted(i, x, y, dx, dy) then color else old(buffer[i])
      {
        var px := x * Scale + dx;
        var py := y * Scale + dy;
        if px < Width * Scale && py < Height * Scale {
          PaintedNext(x, y, dx, dy);
          buffer[py * Width * Scale + px] := color;
        } else {
          PaintedNothing(x, y, dx + 1, dy);
        }
      }
    }
  }

  /** Draws the whole grid: afterwards the first BufferLen entries of the
      buffer are the image of the grid, and any entries past them are untouched. */
  method Draw(buffer: array<U32>, grid: array2<bool>)
    requires IsGrid(grid) && buffer.Length >= BufferLen
    modifies buffer
    ensures buffer[..BufferLen] == Frame(Cells(grid))
    ensures buffer[BufferLen..] == old(buffer[BufferLen..])
  {
    ghost var b := Cells(grid);
    for y := 0 to Height
      invariant forall i :: 0 <= i < buffer.Length ==>
        buffer[i] == if i < BufferLen && CellY(i) < y then Frame(b)[i] else old(buffer[i])
    {
      for x := 0 to Width
        invariant forall i :: 0 <= i < buffer.Length ==>
          buffer[i] == if i < BufferLen && (CellY(i) < y || (CellY(i) == y && CellX(i) < x))
                       then Frame(b)[i] else old(buffer[i])
      {
        var color := if grid[y, x] then LiveColors[(x + y) % |LiveColors|] else DeadColor;
        Point(buffer, x, y, color);
      }
    }
  }

  // ---------------------------------------------------------------------------
  // Properties of the image

  /** Every pixel of the block of cell (x, y) shows that cell's colour. */
  lemma FrameAtBlock(b: Board, x: nat, y: nat, dx: nat, dy: nat)
    requires x < Width && y < Height && dx < Scale && dy < Scale
    ensures PixelIndex(x, y, dx, dy) < BufferLen
    ensures Frame(b)[PixelIndex(x, y, dx, dy)] ==
      if b[y][x] then LiveColors[(x + y) % 8] else DeadColor
  {
    PixelIndexInverse(x, y, dx, dy);
  }

  /** An all-dead grid is drawn entirely in the background colour. */
  lemma FrameOfBlank()
    ensures Frame(Blank) == seq(BufferLen, _ => DeadColor)
  {
  }

  /** A grid whose only live cell is (0, 0) is drawn as one 5 x 5 block of the
      first palette colour in the top-left corner, on the background colour. */
  lemma FrameOfCorner()
    ensures forall i :: 0 <= i < BufferLen ==>
      Frame(Blank[0 := Blank[0][0 := true]])[i] ==
        if i % PixelWidth < 5 && i / PixelWidth < 5 then LiveColors[0] else DeadColor
  {
  }
}
