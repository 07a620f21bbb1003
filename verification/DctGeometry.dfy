/** The grid of 8 x 8 blocks that the DCT kernel and its canonical form share. */
module DctGeometry {
  import opened Arithmetic
  import opened GaloisField

  // Blocks per row, bytes per row and per pixel, and the channel that carries the coefficients.
  datatype Grid = Grid(blocksX: nat, stride: nat, bpp: nat, channel: nat)

  ghost predicate ValidGrid(g: Grid) {
    g.blocksX > 0 && g.channel < g.bpp && 8 * g.blocksX * g.bpp <= g.stride
  }

  // Row and column, within the frame, of pixel (i, j) of a block.
  function PixelRow(g: Grid, block: nat, i: nat): nat
    requires g.blocksX > 0
  {
    8 * Quotient(block, g.blocksX) + i
  }

  function PixelColumn(g: Grid, block: nat, j: nat): nat
    requires g.blocksX > 0
  {
    8 * (block % g.blocksX) + j
  }

  // The byte that carries pixel (i, j) of a block.
  function BlockOffset(g: Grid, block: nat, i: nat, j: nat): nat
    requires g.blocksX > 0
  {
    PixelRow(g, block, i) * g.stride + (PixelColumn(g, block, j) * g.bpp + g.channel)
  }

  // The first `blocks` blocks lie inside a carrier of `size` bytes, whose last row may lack padding.
  ghost predicate GridFits(g: Grid, blocks: nat, size: nat) {
    && ValidGrid(g)
    && (blocks > 0 ==> (8 * Quotient(blocks - 1, g.blocksX) + 7) * g.stride + 8 * g.blocksX * g.bpp <= size)
  }

  // Pixels numbered block by block, row by row.
  function OffsetAt(g: Grid, k: nat): nat
    requires g.blocksX > 0
  {
    BlockOffset(g, k / 64, k / 8 % 8, k % 8)
  }

  // p is the carrying byte of one of the first n pixels.
  ghost predicate Touched(g: Grid, n: nat, p: nat) {
    g.blocksX > 0 && exists k: nat :: k < n && p == OffsetAt(g, k)
  }

  ghost predicate InBlocks(g: Grid, blocks: nat, p: nat) {
    Touched(g, 64 * blocks, p)
  }

  lemma PixelNumber(block: nat, i: nat, j: nat)
    requires i < 8 && j < 8
    ensures var k := 64 * block + 8 * i + j; k / 64 == block && k / 8 % 8 == i && k % 8 == j
  {}

  lemma ColumnFits(g: Grid, block: nat, j: nat)
    requires ValidGrid(g) && j < 8
    ensures PixelColumn(g, block, j) < 8 * g.blocksX
    ensures PixelColumn(g, block, j) * g.bpp + g.channel < 8 * g.blocksX * g.bpp <= g.stride
  {
    var c := PixelColumn(g, block, j);
    RemainderBound(block, g.blocksX);
    MulMonotone(c + 1, 8 * g.blocksX, g.bpp);
  }

  lemma RemainderBound(x: nat, d: nat)
    requires d > 0
    ensures x % d < d
  {}

  lemma QuotientMonotone(a: nat, b: nat, d: nat)
    requires a <= b && d > 0
    ensures Quotient(a, d) <= Quotient(b, d)
  {
    DivMod(a, d);
    DivMod(b, d);
    if a / d > b / d {
      MulMonotone(b / d + 1, a / d, d);
    }
  }

  lemma OffsetFits(g: Grid, blocks: nat, size: nat, block: nat, i: nat, j: nat)
    requires GridFits(g, blocks, size) && block < blocks && i < 8 && j < 8
    ensures BlockOffset(g, block, i, j) < size
  {
    ColumnFits(g, block, j);
    QuotientMonotone(block, blocks - 1, g.blocksX);
    MulMonotone(PixelRow(g, block, i), 8 * Quotient(blocks - 1, g.blocksX) + 7, g.stride);
  }

  // Enough blocks in a frame of `height` rows of `width` pixels fit its bytes.
  lemma FrameGridFits(g: Grid, width: nat, height: nat, blocks: nat, size: nat)
    requires ValidGrid(g) && g.blocksX == width / 8 && 0 < blocks <= (width / 8) * (height / 8)
    requires height > 0 && (height - 1) * g.stride + width * g.bpp <= size
    ensures GridFits(g, blocks, size)
  {
    var lastRow := Quotient(blocks - 1, g.blocksX);
    RowOf(blocks - 1, g.blocksX, height / 8);
    MulMonotone(8 * lastRow + 7, height - 1, g.stride);
    MulMonotone(8 * g.blocksX, width, g.bpp);
  }

  // Every pixel of every block has a byte of its own.
  lemma OffsetDistinct(g: Grid, block: nat, i: nat, j: nat, block': nat, i': nat, j': nat)
    requires ValidGrid(g) && i < 8 && j < 8 && i' < 8 && j' < 8
    requires BlockOffset(g, block, i, j) == BlockOffset(g, block', i', j')
    ensures block == block' && i == i' && j == j'
  {
    hide PixelRow, PixelColumn;
    ColumnFits(g, block, j);
    ColumnFits(g, block', j');
    var row, row' := PixelRow(g, block, i), PixelRow(g, block', i');
    var column, column' := PixelColumn(g, block, j), PixelColumn(g, block', j');
    var p := BlockOffset(g, block, i, j);
    DivModUnique(p, g.stride, row, column * g.bpp + g.channel);
    DivModUnique(p, g.stride, row', column' * g.bpp + g.channel);
    DivModUnique(p % g.stride, g.bpp, column, g.channel);
    DivModUnique(p % g.stride, g.bpp, column', g.channel);
    SameBlock(g, block, i, j, block', i', j');
  }

  lemma SameBlock(g: Grid, block: nat, i: nat, j: nat, block': nat, i': nat, j': nat)
    requires g.blocksX > 0 && i < 8 && j < 8 && i' < 8 && j' < 8
    requires PixelRow(g, block, i) == PixelRow(g, block', i') && PixelColumn(g, block, j) == PixelColumn(g, block', j')
    ensures block == block' && i == i' && j == j'
  {
    DivMod(block, g.blocksX);
    DivMod(block', g.blocksX);
  }

  lemma OffsetAtDistinct(g: Grid, k: nat, k': nat)
    requires ValidGrid(g) && OffsetAt(g, k) == OffsetAt(g, k')
    ensures k == k'
  {
    hide BlockOffset;
    OffsetDistinct(g, k / 64, k / 8 % 8, k % 8, k' / 64, k' / 8 % 8, k' % 8);
    SamePixel(k, k');
  }

  lemma SamePixel(k: nat, k': nat)
    requires k / 64 == k' / 64 && k / 8 % 8 == k' / 8 % 8 && k % 8 == k' % 8
    ensures k == k'
  {
    PixelParts(k);
    PixelParts(k');
  }

  lemma PixelParts(k: nat)
    ensures k == 64 * (k / 64) + 8 * (k / 8 % 8) + k % 8
  {
    assert k / 8 / 8 == k / 64;
  }

  lemma OffsetAtFits(g: Grid, blocks: nat, size: nat, k: nat)
    requires GridFits(g, blocks, size) && k < 64 * blocks
    ensures OffsetAt(g, k) < size
  {
    hide BlockOffset;
    OffsetFits(g, blocks, size, k / 64, k / 8 % 8, k % 8);
  }

  // Zeroes the carrying bytes of the first `blocks` blocks and nothing else.
  method ClearBlocks(data: array<Byte>, g: Grid, blocks: nat)
    requires GridFits(g, blocks, data.Length)
    modifies data
    ensures forall p :: 0 <= p < data.Length ==> data[p] == if InBlocks(g, blocks, p) then 0 else old(data[p])
  {
    hide BlockOffset, OffsetAt, Touched;
    ghost var before := data[..];
    forall p: nat
      ensures !Touched(g, 0, p)
    {
      TouchedNone(g, p);
    }
    for block := 0 to blocks
      invariant forall p :: 0 <= p < data.Length ==> data[p] == if Touched(g, 64 * block, p) then 0 else before[p]
    {
      for i := 0 to 8
        invariant forall p :: 0 <= p < data.Length ==> data[p] == if Touched(g, 64 * block + 8 * i, p) then 0 else before[p]
      {
        for j := 0 to 8
          invariant forall p :: 0 <= p < data.Length ==> data[p] == if Touched(g, 64 * block + 8 * i + j, p) then 0 else before[p]
        {
          OffsetFits(g, blocks, data.Length, block, i, j);
          OffsetAtPixel(g, block, i, j);
          ghost var k := 64 * block + 8 * i + j;
          ghost var next := k + 1;
          forall p: nat
            ensures Touched(g, next, p) <==> Touched(g, k, p) || p == BlockOffset(g, block, i, j)
          {
            TouchedNext(g, k, p);
          }
          data[BlockOffset(g, block, i, j)] := 0;
        }
      }
    }
  }

  lemma TouchedNext(g: Grid, k: nat, p: nat)
    requires g.blocksX > 0
    ensures Touched(g, k + 1, p) <==> Touched(g, k, p) || p == OffsetAt(g, k)
  {
    hide OffsetAt;
    if Touched(g, k + 1, p) {
      var t: nat :| t < k + 1 && p == OffsetAt(g, t);
      assert t == k || Touched(g, k, p);
    }
    if Touched(g, k, p) {
      var t: nat :| t < k && p == OffsetAt(g, t);
      assert t < k + 1;
    }
    assert k < k + 1;
  }

  lemma OffsetAtPixel(g: Grid, block: nat, i: nat, j: nat)
    requires g.blocksX > 0 && i < 8 && j < 8
    ensures OffsetAt(g, 64 * block + 8 * i + j) == BlockOffset(g, block, i, j)
  {
    hide BlockOffset;
    PixelNumber(block, i, j);
  }

  lemma TouchedNone(g: Grid, p: nat)
    ensures !Touched(g, 0, p)
  {}

  // The green grid of packed RGB, seen from a byte: it carries a payload block exactly when it is the green byte of a
  // pixel in a whole block, and that block is one of the first in rows of blocks.
  lemma GreenBlocksExactly(width: nat, blocks: nat, p: nat)
    requires width >= 8
    ensures var x, y := Quotient(p, 3) % width, Quotient(Quotient(p, 3), width);
            InBlocks(Grid(width / 8, 3 * width, 3, 1), blocks, p) <==>
              p % 3 == 1 && x < 8 * (width / 8) && (y / 8) * (width / 8) + x / 8 < blocks
  {
    hide OffsetAt;
    var g := Grid(width / 8, 3 * width, 3, 1);
    var x, y := Quotient(p, 3) % width, Quotient(Quotient(p, 3), width);
    if InBlocks(g, blocks, p) {
      var k: nat :| k < 64 * blocks && p == OffsetAt(g, k);
      GreenPixelOut(width, k);
    }
    if p % 3 == 1 && x < 8 * (width / 8) && (y / 8) * (width / 8) + x / 8 < blocks {
      GreenPixelIn(width, p);
      assert p == OffsetAt(g, 64 * ((y / 8) * (width / 8) + x / 8) + 8 * (y % 8) + x % 8);
    }
  }

  lemma GreenPixelOut(width: nat, k: nat)
    requires width >= 8
    ensures var p := OffsetAt(Grid(width / 8, 3 * width, 3, 1), k);
            var x, y := Quotient(p, 3) % width, Quotient(Quotient(p, 3), width);
            p % 3 == 1 && x < 8 * (width / 8) && (y / 8) * (width / 8) + x / 8 == k / 64
  {
    hide BlockOffset;
    GreenPixel(width, k / 64, k / 8 % 8, k % 8);
  }

  lemma GreenPixelIn(width: nat, p: nat)
    requires width >= 8 && p % 3 == 1 && Quotient(p, 3) % width < 8 * (width / 8)
    ensures var x, y := Quotient(p, 3) % width, Quotient(Quotient(p, 3), width);
            p == OffsetAt(Grid(width / 8, 3 * width, 3, 1), 64 * ((y / 8) * (width / 8) + x / 8) + 8 * (y % 8) + x % 8)
  {
    hide BlockOffset;
    var x, y := Quotient(p, 3) % width, Quotient(Quotient(p, 3), width);
    var block := (y / 8) * (width / 8) + x / 8;
    OffsetAtPixel(Grid(width / 8, 3 * width, 3, 1), block, y % 8, x % 8);
    DivModUnique(block, width / 8, y / 8, x / 8);
    GreenPixel(width, block, y % 8, x % 8);
    DivMod(Quotient(p, 3), width);
  }

  // The green byte of pixel (i, j) of a block, and the block read off from it.
  lemma GreenPixel(width: nat, block: nat, i: nat, j: nat)
    requires width >= 8 && i < 8 && j < 8
    ensures var p := BlockOffset(Grid(width / 8, 3 * width, 3, 1), block, i, j);
            var x, y := Quotient(p, 3) % width, Quotient(Quotient(p, 3), width);
            && p == 3 * (y * width + x) + 1 && p % 3 == 1
            && x < 8 * (width / 8) && x == 8 * (block % (width / 8)) + j && y == 8 * Quotient(block, width / 8) + i
            && (y / 8) * (width / 8) + x / 8 == block
  {
    var bx := width / 8;
    var row, column := 8 * Quotient(block, bx) + i, 8 * (block % bx) + j;
    RemainderBound(block, bx);
    DivMod(block, bx);
    var p := BlockOffset(Grid(bx, 3 * width, 3, 1), block, i, j);
    assert row * (3 * width) == 3 * (row * width);
    DivModUnique(p, 3, row * width + column, 1);
    DivModUnique(row * width + column, width, row, column);
  }

  // The carrying byte of pixel (x, y) of a frame, found through its block.
  lemma PixelOffset(g: Grid, x: nat, y: nat, block: nat)
    requires g.blocksX > 0 && x < 8 * g.blocksX && block == (y / 8) * g.blocksX + x / 8
    ensures BlockOffset(g, block, y % 8, x % 8) == y * g.stride + (x * g.bpp + g.channel)
  {
    hide PixelRow, PixelColumn;
    PixelPlace(g, x, y, block);
  }

  lemma PixelPlace(g: Grid, x: nat, y: nat, block: nat)
    requires g.blocksX > 0 && x < 8 * g.blocksX && block == (y / 8) * g.blocksX + x / 8
    ensures PixelRow(g, block, y % 8) == y && PixelColumn(g, block, x % 8) == x
  {
    DivModUnique(block, g.blocksX, y / 8, x / 8);
  }
}
