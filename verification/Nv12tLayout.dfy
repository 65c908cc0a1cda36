/** The 64x32-block tiled layout of MFC 5.x (USE_NV12T_128X64): where pixel
    (x, y) of a w-by-h plane lives in the tiled buffer.

    Blocks of 64x32 bytes are stored in a Z pattern over pairs of block rows;
    a block row left without a partner is stored straight. */
module Nv12tLayout {
  import opened Bytes

  const BLOCK_SIZE := 2048

  /** Half the blocks in one block row: the width in 128-byte units. */
  function HalfCols(w: nat): nat { (w + 127) / 128 }

  /** Blocks in one block row: the width in blocks, rounded up to an even number. */
  function Cols(w: nat): nat { 2 * HalfCols(w) }

  /** Block rows of the plane. */
  function Rows(h: nat): nat { (h + 31) / 32 }

  function TiledSize(w: nat, h: nat): nat {
    MulMono(0, Rows(h), Cols(w));
    Rows(h) * Cols(w) * BLOCK_SIZE
  }

  /** Place of column bc in a pair of block rows: the even and the odd formula. */
  function ZPlace(bc: nat, odd: bool): nat {
    if odd then bc + 2 + bc / 4 * 4 else bc + (bc + 2) / 4 * 4
  }

  /** Index of block (bc, br) where a block row has 2c blocks: the odd, the even and the last-even formula. */
  function Block(c: nat, rows: nat, bc: nat, br: nat): nat {
    if br % 2 == 1 then (br - 1) * (2 * c) + ZPlace(bc, true)
    else if br + 1 < rows then br * (2 * c) + ZPlace(bc, false)
    else br * (2 * c) + bc
  }

  function Addr(w: nat, h: nat, x: nat, y: nat): nat {
    Block(HalfCols(w), Rows(h), x / 64, y / 32) * BLOCK_SIZE + y % 32 * 64 + x % 64
  }

  /** The formulas of the header: with blocks of 64x32 bytes and an even number n of them across, block (c, r) is number
      n(r - 1) + c + 2 + 4[c/4] in an odd row, nr + c + 4[(c + 2)/4] in an even row with a row behind it, and nr + c in a
      last even row; in a block lie rows of 64 bytes. */
  lemma AddrIs(w: nat, h: nat, x: nat, y: nat)
    requires x < w && y < h
    ensures var (c, r, n, rows) := (x / 64, y / 32, 2 * ((w + 127) / 128), (h + 31) / 32);
            Addr(w, h, x, y) ==
            2048 * (if r % 2 == 1 then n * (r - 1) + c + 2 + 4 * (c / 4)
                    else if r + 1 < rows then n * r + c + 4 * ((c + 2) / 4)
                    else n * r + c)
            + 64 * (y % 32) + x % 64
  {}

  // ----- The slow address function of the source --------------------------

  /** The source's test for a block row without a partner. */
  predicate InLastEvenRow(ySize: nat, yPos: nat) {
    ySize <= yPos + 32 && yPos < ySize && (ySize - 1) / 32 % 2 == 0 && yPos / 32 % 2 == 0
  }

  function LinearAddr0(xPos: nat, yPos: nat): nat { BitOr(yPos % 32 * 16, xPos / 4 % 16) }

  function LinearAddr1(xSize: nat, ySize: nat, xPos: nat, yPos: nat): nat
    requires xSize > 0
  {
    yPos / 64 % 256 * ((xSize - 1) / 128 + 1) +
    (if InLastEvenRow(ySize, yPos) then xPos / 4 / 64 % 64 else xPos / 4 / 32 % 128)
  }

  function BankAddr(xPos: nat, yPos: nat): nat {
    if xPos / 4 / 32 % 2 == yPos / 32 % 2 then xPos / 4 / 16 % 2 else BitOr(2, xPos / 4 / 16 % 2)
  }

  /** tile_4x2_read: the address of the 4-byte group holding (xPos, yPos). */
  function Tile4x2Read(xSize: nat, ySize: nat, xPos: nat, yPos: nat): nat
    requires xSize > 0
  {
    AddressFields(LinearAddr1(xSize, ySize, xPos, yPos), BankAddr(xPos, yPos), LinearAddr0(xPos, yPos))
  }

  function AddressFields(quad: nat, bank: nat, group: nat): nat {
    BitOr(BitOr(quad * 8192, bank * 2048), group * 4)
  }

  lemma FieldWidths()
    ensures IsPowerOfTwo(2) && IsPowerOfTwo(16) && IsPowerOfTwo(2048) && IsPowerOfTwo(8192)
  {
    assert IsPowerOfTwo(4) && IsPowerOfTwo(16) && IsPowerOfTwo(64) && IsPowerOfTwo(256) && IsPowerOfTwo(1024);
  }

  /** The or of the three address fields is their sum. */
  lemma FieldsAdd(quad: nat, bank: nat, group: nat)
    requires bank < 4 && group < 512
    ensures AddressFields(quad, bank, group) == quad * 8192 + bank * 2048 + group * 4
  {
    hide BitOr, IsPowerOfTwo;
    FieldWidths();
    var low := bank * 2048;
    OrOfDisjointFields(quad, low, 8192);
    var high := quad * 4 + bank;
    assert quad * 8192 + low == high * 2048;
    OrOfDisjointFields(high, group * 4, 2048);
  }

  lemma GroupField(x: nat, y: nat)
    ensures LinearAddr0(x, y) < 512 && LinearAddr0(x, y) * 4 + x % 4 == y % 32 * 64 + x % 64
  {
    hide BitOr, IsPowerOfTwo;
    FieldWidths();
    var (high, low) := (y % 32, x / 4 % 16);
    OrOfDisjointFields(high, low, 16);
    assert x % 64 == low * 4 + x % 4;
  }

  lemma BankField(x: nat, y: nat)
    ensures BankAddr(x, y) == (if x / 64 / 2 % 2 == y / 32 % 2 then 0 else 2) + x / 64 % 2
  {
    hide BitOr, IsPowerOfTwo;
    FieldWidths();
    var low := x / 4 / 16 % 2;
    OrOfDisjointFields(1, low, 2);
    assert x / 4 / 16 == x / 64 && x / 4 / 32 == x / 64 / 2;
  }

  /** The source's test singles out the last block row when the number of rows is odd. */
  lemma LastEvenRow(h: nat, y: nat)
    requires y < h
    ensures InLastEvenRow(h, y) <==> y / 32 % 2 == 0 && y / 32 + 1 == Rows(h)
    ensures y / 32 + 1 <= Rows(h)
  {
    assert (h - 1) / 32 + 1 == Rows(h);
  }

  lemma MaskedField(v: nat)
    ensures v / 64 % 256 <= v / 64 && v / 128 % 128 <= v / 128 && v / 256 % 64 <= v / 256
    ensures v / 64 % 256 == v / 64 <==> v < 16384
    ensures v / 128 % 128 == v / 128 <==> v < 16384
    ensures v / 256 % 64 == v / 256 <==> v < 16384
  {}

  lemma SmallerFields(t: nat, q: nat, c: nat, a: nat, b: nat)
    requires t <= q && a <= b && c > 0
    ensures t * c + a <= q * c + b
    ensures t * c + a == q * c + b <==> t == q && a == b
  {
    assert q * c == t * c + (q - t) * c;
  }

  /** The quad number, as the block formulas have it, or smaller when a field was truncated. */
  lemma QuadField(w: nat, h: nat, x: nat, y: nat)
    requires x < w && y < h
    ensures var quad := y / 64 * HalfCols(w) + (if InLastEvenRow(h, y) then x / 256 else x / 128);
            if x < 16384 && y < 16384 then LinearAddr1(w, h, x, y) == quad else LinearAddr1(w, h, x, y) < quad
  {
    assert (w - 1) / 128 + 1 == HalfCols(w);
    MaskedField(y);
    MaskedField(x);
    assert x / 4 / 64 == x / 256 && x / 4 / 32 == x / 128;
    if InLastEvenRow(h, y) {
      SmallerFields(y / 64 % 256, y / 64, HalfCols(w), x / 256 % 64, x / 256);
    } else {
      SmallerFields(y / 64 % 256, y / 64, HalfCols(w), x / 128 % 128, x / 128);
    }
  }

  /** Four consecutive blocks make one 8 KB quad. */
  lemma BlockInQuads(c: nat, rows: nat, bc: nat, br: nat)
    requires br < rows
    ensures Block(c, rows, bc, br) ==
            (br / 2 * c + (if br % 2 == 0 && br + 1 == rows then bc / 4 else bc / 2)) * 4
            + (if bc / 2 % 2 == br % 2 then 0 else 2) + bc % 2
  {
    var (p, e) := (br / 2, br - br % 2);
    assert e * (2 * c) == 4 * (p * c) by { assert e == 2 * p; }
    ZPlaceInQuads(bc);
  }

  lemma ZPlaceInQuads(bc: nat)
    ensures ZPlace(bc, true) == bc / 2 * 4 + (if bc / 2 % 2 == 1 then 0 else 2) + bc % 2
    ensures ZPlace(bc, false) == bc / 2 * 4 + (if bc / 2 % 2 == 0 then 0 else 2) + bc % 2
    ensures bc == bc / 4 * 4 + (if bc / 2 % 2 == 0 then 0 else 2) + bc % 2
  {
    var (m, r) := (bc / 4, bc % 4);
    assert bc == 4 * m + r;
    assert bc / 2 == 2 * m + r / 2 && (bc + 2) / 4 == if r < 2 then m else m + 1;
  }

  /** tile_4x2_read agrees with the block formulas exactly inside the range of its bit fields; outside it falls short. */
  lemma Tile4x2ReadIsAddr(w: nat, h: nat, x: nat, y: nat)
    requires x < w && y < h
    ensures Tile4x2Read(w, h, x, y) + x % 4 <= Addr(w, h, x, y)
    ensures Tile4x2Read(w, h, x, y) + x % 4 == Addr(w, h, x, y) <==> x < 16384 && y < 16384
  {
    hide BitOr, Block, Rows, HalfCols, LinearAddr0, LinearAddr1, BankAddr, AddressFields, InLastEvenRow;
    GroupField(x, y);
    BankField(x, y);
    LastEvenRow(h, y);
    QuadField(w, h, x, y);
    var (bc, br) := (x / 64, y / 32);
    BlockInQuads(HalfCols(w), Rows(h), bc, br);
    assert y / 64 == br / 2 && x / 256 == bc / 4 && x / 128 == bc / 2;
    FieldsAdd(LinearAddr1(w, h, x, y), BankAddr(x, y), LinearAddr0(x, y));
    FieldsDecide(LinearAddr1(w, h, x, y),
                 br / 2 * HalfCols(w) + (if br % 2 == 0 && br + 1 == Rows(h) then bc / 4 else bc / 2),
                 BankAddr(x, y), y % 32 * 64 + x % 64, Block(HalfCols(w), Rows(h), bc, br));
  }

  lemma FieldsDecide(read: nat, quad: nat, bank: nat, low: nat, block: nat)
    requires block == quad * 4 + bank
    ensures read * 8192 + bank * 2048 + low == block * BLOCK_SIZE + low <==> read == quad
    ensures read <= quad ==> read * 8192 + bank * 2048 + low <= block * BLOCK_SIZE + low
  {}

  // ----- The layout is a bijection ----------------------------------------

  /** Column and row inside a pair of block rows of the block at place q of the Z pattern. */
  function ZCol(q: nat): nat { q / 8 * 4 + ZColInGroup(q % 8) }

  function ZColInGroup(r: nat): nat { if r < 2 then r else if r < 6 then r - 2 else r - 4 }

  predicate ZOdd(q: nat) { 2 <= q % 8 < 6 }

  /** Column and row of the block with index b. */
  function BlockCol(c: nat, rows: nat, b: nat): nat
    requires c > 0
  {
    if 2 * Div(b, 4 * c) + 1 < rows then ZCol(Mod(b, 4 * c)) else Mod(b, 4 * c)
  }

  function BlockRow(c: nat, rows: nat, b: nat): nat
    requires c > 0
  {
    2 * Div(b, 4 * c) + (if 2 * Div(b, 4 * c) + 1 < rows && ZOdd(Mod(b, 4 * c)) then 1 else 0)
  }

  /** The pixel stored at address a. */
  function PixelX(w: nat, h: nat, a: nat): nat
    requires w > 0
  {
    BlockCol(HalfCols(w), Rows(h), a / BLOCK_SIZE) * 64 + a % 64
  }

  function PixelY(w: nat, h: nat, a: nat): nat
    requires w > 0
  {
    BlockRow(HalfCols(w), Rows(h), a / BLOCK_SIZE) * 32 + a % BLOCK_SIZE / 64
  }

  lemma ZPlaceInGroup(bc: nat, odd: bool)
    ensures var r := bc % 4;
            ZPlace(bc, odd) == bc / 4 * 8 + (if odd then r + 2 else if r < 2 then r else r + 4)
  {
    var (m, r) := (bc / 4, bc % 4);
    assert bc == 4 * m + r;
    assert (bc + 2) / 4 == if r < 2 then m else m + 1;
  }

  /** Inside a pair of 2c-column rows the Z pattern is a bijection onto 0..4c. */
  lemma ZPattern(c: nat, bc: nat, odd: bool)
    requires bc < 2 * c
    ensures ZPlace(bc, odd) < 4 * c && ZCol(ZPlace(bc, odd)) == bc && ZOdd(ZPlace(bc, odd)) == odd
  {
    hide ZPlace;
    ZPlaceInGroup(bc, odd);
    var (m, r) := (bc / 4, bc % 4);
    Parts(ZPlace(bc, odd), 8, m, if odd then r + 2 else if r < 2 then r else r + 4);
  }

  lemma ZPatternInverse(c: nat, q: nat)
    requires q < 4 * c
    ensures ZCol(q) < 2 * c && ZPlace(ZCol(q), ZOdd(q)) == q
  {
    hide ZPlace;
    var (m, r) := (q / 8, q % 8);
    var bc := 4 * m + ZColInGroup(r);
    Parts(bc, 4, m, ZColInGroup(r));
    assert 2 * m + (if r < 4 then 0 else 1) < c;
    ZPlaceInGroup(bc, ZOdd(q));
  }

  /** Row 2p of a pair of block rows, or row 2p + 1 when odd. */
  function RowOfPair(p: nat, odd: bool): nat { if odd then 2 * p + 1 else 2 * p }

  /** A pair of block rows fills exactly the blocks 4cp .. 4c(p+1), a lone last row the first half of them. */
  lemma BlockInPair(c: nat, rows: nat, bc: nat, p: nat, odd: bool)
    requires bc < 2 * c && RowOfPair(p, odd) < rows
    ensures Block(c, rows, bc, RowOfPair(p, odd)) == p * (4 * c) + (if 2 * p + 1 < rows then ZPlace(bc, odd) else bc)
    ensures (if 2 * p + 1 < rows then ZPlace(bc, odd) else bc) < if 2 * p + 1 < rows then 4 * c else 2 * c
  {
    ZPattern(c, bc, odd);
    assert RowOfPair(p, odd) % 2 == if odd then 1 else 0;
    assert 2 * p * (2 * c) == p * (4 * c);
  }

  lemma PairInPlane(c: nat, rows: nat, p: nat, q: nat)
    requires 2 * p < rows && q < if 2 * p + 1 < rows then 4 * c else 2 * c
    ensures p * (4 * c) + q < rows * (2 * c)
  {
    var (k, n) := (if 2 * p + 1 < rows then 2 else 1, 2 * c);
    MulMono(2 * p + k, rows, n);
    assert (2 * p + k) * n == 2 * (p * n) + k * n && p * (4 * c) == 2 * (p * n);
  }

  lemma PairOfBlock(c: nat, rows: nat, p: nat, q: nat)
    requires p * (4 * c) + q < rows * (2 * c) && q < 4 * c
    ensures 2 * p < rows && (2 * p + 1 < rows || q < 2 * c)
  {
    var n := 2 * c;
    assert p * (4 * c) == 2 * p * n && (2 * p + 1) * n == 2 * p * n + n;
    MulMono(rows, 2 * p, n);
    MulMono(rows, 2 * p + 1, n);
  }

  /** Block (bc, br) lies inside the plane's blocks and is found again by its index. */
  lemma BlockThenInverse(c: nat, rows: nat, bc: nat, br: nat)
    requires bc < 2 * c && br < rows
    ensures Block(c, rows, bc, br) < rows * (2 * c)
    ensures BlockCol(c, rows, Block(c, rows, bc, br)) == bc && BlockRow(c, rows, Block(c, rows, bc, br)) == br
  {
    var (p, odd) := (br / 2, br % 2 == 1);
    assert br == RowOfPair(p, odd);
    BlockInPair(c, rows, bc, p, odd);
    ZPattern(c, bc, odd);
    var q := if 2 * p + 1 < rows then ZPlace(bc, odd) else bc;
    PairInPlane(c, rows, p, q);
    DivModUnique(p * (4 * c) + q, 4 * c, p, q);
  }

  lemma InverseThenBlock(c: nat, rows: nat, b: nat)
    requires c > 0 && b < rows * (2 * c)
    ensures BlockCol(c, rows, b) < 2 * c && BlockRow(c, rows, b) < rows
    ensures Block(c, rows, BlockCol(c, rows, b), BlockRow(c, rows, b)) == b
  {
    var (p, q) := (Div(b, 4 * c), Mod(b, 4 * c));
    DivMod(b, 4 * c);
    PairOfBlock(c, rows, p, q);
    ZPatternInverse(c, q);
    BlockInPair(c, rows, BlockCol(c, rows, b), p, 2 * p + 1 < rows && ZOdd(q));
  }

  lemma AddrOfParts(w: nat, h: nat, bc: nat, br: nat, dx: nat, dy: nat)
    requires dx < 64 && dy < 32
    ensures Addr(w, h, bc * 64 + dx, br * 32 + dy) == Block(HalfCols(w), Rows(h), bc, br) * BLOCK_SIZE + dy * 64 + dx
  {
    hide Block, Rows, HalfCols;
    Parts(bc * 64 + dx, 64, bc, dx);
    Parts(br * 32 + dy, 32, br, dy);
  }

  lemma AddressParts(b: nat, dx: nat, dy: nat)
    requires dx < 64 && dy < 32
    ensures var a := b * BLOCK_SIZE + dy * 64 + dx;
            a / BLOCK_SIZE == b && a % 64 == dx && a % BLOCK_SIZE / 64 == dy
  {
    Parts(b * BLOCK_SIZE + dy * 64 + dx, BLOCK_SIZE, b, dy * 64 + dx);
    Parts(dy * 64 + dx, 64, dy, dx);
    Parts(b * BLOCK_SIZE + dy * 64 + dx, 64, b * 32 + dy, dx);
  }

  lemma AddressSplit(a: nat)
    ensures a == a / BLOCK_SIZE * BLOCK_SIZE + a % BLOCK_SIZE / 64 * 64 + a % 64 && a % BLOCK_SIZE / 64 < 32
  {
    assert a % BLOCK_SIZE % 64 == a % 64;
  }

  /** Every pixel of the padded plane has an address of its own, in a 64-byte strip inside the buffer. */
  lemma AddrThenInverse(w: nat, h: nat, x: nat, y: nat)
    requires x < 64 * Cols(w) && y < 32 * Rows(h)
    ensures w > 0
    ensures x % 64 <= Addr(w, h, x, y) && Addr(w, h, x, y) - x % 64 + 64 <= TiledSize(w, h)
    ensures PixelX(w, h, Addr(w, h, x, y)) == x && PixelY(w, h, Addr(w, h, x, y)) == y
  {
    hide Block, BlockCol, BlockRow, Rows;
    var (bc, br) := (x / 64, y / 32);
    BlockThenInverse(HalfCols(w), Rows(h), bc, br);
    AddressParts(Block(HalfCols(w), Rows(h), bc, br), x % 64, y % 32);
    MulMono(Block(HalfCols(w), Rows(h), bc, br) + 1, Rows(h) * Cols(w), BLOCK_SIZE);
  }

  /** Every byte of the buffer is the address of exactly one pixel of the padded plane. */
  lemma InverseThenAddr(w: nat, h: nat, a: nat)
    requires w > 0 && a < TiledSize(w, h)
    ensures PixelX(w, h, a) < 64 * Cols(w) && PixelY(w, h, a) < 32 * Rows(h)
    ensures Addr(w, h, PixelX(w, h, a), PixelY(w, h, a)) == a
  {
    hide Block, BlockCol, BlockRow, Addr, Rows, HalfCols;
    var (b, dx, dy) := (a / BLOCK_SIZE, a % 64, a % BLOCK_SIZE / 64);
    AddressSplit(a);
    InverseThenBlock(HalfCols(w), Rows(h), b);
    AddrOfParts(w, h, BlockCol(HalfCols(w), Rows(h), b), BlockRow(HalfCols(w), Rows(h), b), dx, dy);
  }

  /** The bytes of one block row strip are consecutive. */
  lemma StripIsContiguous(w: nat, h: nat, x: nat, y: nat, k: nat)
    requires x % 64 + k < 64
    ensures Addr(w, h, x + k, y) == Addr(w, h, x, y) + k
  {
    assert (x + k) / 64 == x / 64 && (x + k) % 64 == x % 64 + k;
  }

  /** The plane lies inside the padded plane, and up to 16384x16384 its offsets need less than 32 bits. */
  lemma PlaneFits(w: nat, h: nat)
    ensures w <= 64 * Cols(w) && h <= 32 * Rows(h)
    ensures w <= 16384 && h <= 16384 ==> TiledSize(w, h) <= 16384 * 16384
  {
    if w <= 16384 && h <= 16384 {
      MulMono(Rows(h), 512, Cols(w));
    }
  }

  // ----- The block formulas, as the converters compute them ---------------

  lemma LaterRow(h: nat, i: nat)
    requires i < h
    ensures i + 32 < (h + 31) / 32 * 32 <==> i / 32 + 1 < Rows(h)
  {}

  /** tiled_offset of the block in column bc that holds row i, from the source's three formulas. */
  method BlockOffset(w: nat, h: nat, bc: nat, i: nat) returns (tiledOffset: nat)
    requires i < h
    ensures tiledOffset == Block(HalfCols(w), Rows(h), bc, i / 32) * BLOCK_SIZE
  {
    var tiledYIndex := i / 32;
    var blocks := (w + 127) / 128 * 128 / 64;
    assert blocks == 2 * HalfCols(w);
    MulMono(0, tiledYIndex, blocks);
    if tiledYIndex % 2 == 1 {
      MulMono(0, tiledYIndex - 1, blocks);
      tiledOffset := (tiledYIndex - 1) * blocks + bc + 2 + bc / 4 * 4;
    } else {
      LaterRow(h, i);
      if i + 32 < (h + 31) / 32 * 32 {
        tiledOffset := bc + (bc + 2) / 4 * 4 + tiledYIndex * blocks;
      } else {
        tiledOffset := tiledYIndex * blocks + bc;
      }
    }
    tiledOffset := tiledOffset * 2048;
  }
}
