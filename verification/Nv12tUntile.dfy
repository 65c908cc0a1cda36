/** csc_tiled_to_linear_crop and csc_tiled_to_linear_deinterleave_crop: the
    window of a 64x32-tiled plane that is left after cropping, in linear order.

    A w-by-h plane is cropped to columns left .. w - right and rows
    top .. h - bottom. The fast code copies 64-byte strips with running offsets;
    only the branches below 256 columns ask tile_4x2_read for addresses. */
module Nv12tUntile {
  import opened Bytes
  import opened Nv12tLayout

  // ----- What untiling means ----------------------------------------------

  /** Pixel (x, y) of the plane tiled in src. */
  function Pixel(src: seq<byte>, w: nat, h: nat, x: nat, y: nat): byte
    requires x < w && y < h && TiledSize(w, h) <= |src|
  {
    PlaneFits(w, h);
    AddrThenInverse(w, h, x, y);
    src[Addr(w, h, x, y)]
  }

  /** Columns x0 .. x1 of row y. */
  function Row(src: seq<byte>, w: nat, h: nat, y: nat, x0: nat, x1: nat): seq<byte>
    requires x0 <= x1 <= w && y < h && TiledSize(w, h) <= |src|
  {
    seq(x1 - x0, k requires 0 <= k < x1 - x0 => Pixel(src, w, h, x0 + k, y))
  }

  /** Columns x0 .. x1 of rows y0 .. y1, row after row. */
  function Window(src: seq<byte>, w: nat, h: nat, x0: nat, x1: nat, y0: nat, y1: nat): seq<byte>
    requires x0 <= x1 <= w && y0 <= y1 <= h && TiledSize(w, h) <= |src|
    decreases y1
  {
    if y1 == y0 then [] else Window(src, w, h, x0, x1, y0, y1 - 1) + Row(src, w, h, y1 - 1, x0, x1)
  }

  lemma {:induction false} WindowLength(src: seq<byte>, w: nat, h: nat, x0: nat, x1: nat, y0: nat, y1: nat)
    requires x0 <= x1 <= w && y0 <= y1 <= h && TiledSize(w, h) <= |src|
    ensures |Window(src, w, h, x0, x1, y0, y1)| == (x1 - x0) * (y1 - y0)
    decreases y1
  {
    if y0 < y1 {
      WindowLength(src, w, h, x0, x1, y0, y1 - 1);
      assert (x1 - x0) * (y1 - y0) == (x1 - x0) * (y1 - 1 - y0) + (x1 - x0);
    }
  }

  /** Pixel (x, y) of the plane is byte (x - x0) of output row (y - y0). */
  lemma {:induction false} WindowAt(
      src: seq<byte>, w: nat, h: nat, x0: nat, x1: nat, y0: nat, y1: nat, x: nat, y: nat)
    requires x0 <= x < x1 <= w && y0 <= y < y1 <= h && TiledSize(w, h) <= |src|
    ensures var k := (x1 - x0) * (y - y0) + (x - x0);
            0 <= k < |Window(src, w, h, x0, x1, y0, y1)| &&
            Window(src, w, h, x0, x1, y0, y1)[k] == Pixel(src, w, h, x, y)
    decreases y1
  {
    WindowLength(src, w, h, x0, x1, y0, y1);
    WindowLength(src, w, h, x0, x1, y0, y1 - 1);
    MulMono(0, x1 - x0, y - y0);
    if y < y1 - 1 {
      WindowAt(src, w, h, x0, x1, y0, y1 - 1, x, y);
    }
  }

  lemma RowStep(src: seq<byte>, w: nat, h: nat, y: nat, x0: nat, x: nat)
    requires x0 <= x < w && y < h && TiledSize(w, h) <= |src|
    ensures Row(src, w, h, y, x0, x + 1) == Row(src, w, h, y, x0, x) + [Pixel(src, w, h, x, y)]
  {
    hide Pixel, TiledSize;
    assert forall k {:trigger Pixel(src, w, h, x0 + k, y)} | 0 <= k < x - x0 :: x0 + k < w;
  }

  /** Up to 64 columns of one strip are consecutive bytes of the buffer. */
  lemma {:induction false} RowStrip(src: seq<byte>, w: nat, h: nat, y: nat, x0: nat, x: nat, n: nat)
    requires 0 < n && x0 <= x && x + n <= w && y < h && x % 64 + n <= 64 && TiledSize(w, h) <= |src|
    ensures Addr(w, h, x, y) + n <= |src|
    ensures Row(src, w, h, y, x0, x + n) == Row(src, w, h, y, x0, x) + src[Addr(w, h, x, y)..Addr(w, h, x, y) + n]
  {
    hide Addr, Cols, Rows, HalfCols, TiledSize, PixelX, PixelY;
    PlaneFits(w, h);
    AddrThenInverse(w, h, x, y);
    var a := Addr(w, h, x, y);
    StripIsContiguous(w, h, x, y, n - 1);
    RowStep(src, w, h, y, x0, x + n - 1);
    if n > 1 {
      RowStrip(src, w, h, y, x0, x, n - 1);
      assert src[a..a + n] == src[a..a + n - 1] + [src[a + n - 1]];
    } else {
      assert src[a..a + n] == [src[a]];
    }
  }

  // ----- Running offsets --------------------------------------------------

  /** Blocks from a 256-column strip to its third block, and to the next strip, in row y. */
  function ThirdBlock(h: nat, y: nat): nat { if y / 32 % 2 == 0 && y / 32 + 1 < Rows(h) then 6 else 2 }

  function NextStrip(h: nat, y: nat): nat { if y / 32 % 2 == 0 && y / 32 + 1 >= Rows(h) then 4 else 8 }

  lemma StripBlocks(w: nat, h: nat, x: nat, y: nat)
    requires x % 256 == 0
    ensures Addr(w, h, x + 64, y) == Addr(w, h, x, y) + BLOCK_SIZE
    ensures Addr(w, h, x + 128, y) == Addr(w, h, x, y) + ThirdBlock(h, y) * BLOCK_SIZE
    ensures Addr(w, h, x + 192, y) == Addr(w, h, x + 128, y) + BLOCK_SIZE
    ensures Addr(w, h, x + 256, y) == Addr(w, h, x, y) + NextStrip(h, y) * BLOCK_SIZE
    ensures x % 64 == 0 && (x + 64) % 64 == 0 && (x + 128) % 64 == 0 && (x + 192) % 64 == 0
  {
    hide Rows;
    var m := x / 256;
    assert x == 256 * m;
    StripColumns(m);
    ZPlaceSteps(m);
  }

  lemma StripColumns(m: nat)
    ensures 256 * m / 64 == 4 * m && (256 * m + 64) / 64 == 4 * m + 1 && (256 * m + 128) / 64 == 4 * m + 2
    ensures (256 * m + 192) / 64 == 4 * m + 3 && (256 * m + 256) / 64 == 4 * m + 4
  {}

  lemma ZPlaceSteps(m: nat)
    ensures ZPlace(4 * m, true) == 8 * m + 2 && ZPlace(4 * m + 1, true) == 8 * m + 3
    ensures ZPlace(4 * m + 2, true) == 8 * m + 4 && ZPlace(4 * m + 3, true) == 8 * m + 5
    ensures ZPlace(4 * m + 4, true) == 8 * m + 10
    ensures ZPlace(4 * m, false) == 8 * m && ZPlace(4 * m + 1, false) == 8 * m + 1
    ensures ZPlace(4 * m + 2, false) == 8 * m + 6 && ZPlace(4 * m + 3, false) == 8 * m + 7
    ensures ZPlace(4 * m + 4, false) == 8 * m + 8
  {
    assert (4 * m + 1) / 4 == m && (4 * m + 2) / 4 == m && (4 * m + 3) / 4 == m && (4 * m + 4) / 4 == m + 1;
    assert (4 * m + 5) / 4 == m + 1 && (4 * m + 6) / 4 == m + 1;
  }

  /** The offsets of the first and third block of the strip at column 64 * bc, and the distance to the next strip. */
  method StripBase(w: nat, h: nat, bc: nat, i: nat) returns (tiledOffset: nat, tiledOffset1: nat, step: nat)
    requires bc % 4 == 0 && i < h
    ensures tiledOffset == Addr(w, h, bc * 64, i)
    ensures tiledOffset1 == Addr(w, h, bc * 64 + 128, i)
    ensures step == NextStrip(h, i)
  {
    hide Block, Addr, ZPlace, HalfCols;
    tiledOffset := BlockOffset(w, h, bc, i);
    if i / 32 % 2 == 1 {
      tiledOffset1 := tiledOffset + 2048 * 2;
      step := 8;
    } else if i + 32 < (h + 31) / 32 * 32 {
      tiledOffset1 := tiledOffset + 2048 * 6;
      step := 8;
    } else {
      tiledOffset1 := tiledOffset + 2048 * 2;
      step := 4;
    }
    tiledOffset := tiledOffset + 64 * (i % 32);
    tiledOffset1 := tiledOffset1 + 64 * (i % 32);
    LaterRow(h, i);
    StripBlocks(w, h, bc * 64, i);
    AddrOfParts(w, h, bc, i / 32, 0, i % 32);
  }

  // ----- csc_tiled_to_linear_crop -----------------------------------------

  /** One row on its way out: columns x0 .. x1 of row y of the plane tiled in src go to the output
      after the bytes in done and before the bytes in rest, which are not to be touched. */
  datatype RowJob = RowJob(w: nat, h: nat, x0: nat, x1: nat, y: nat, src: seq<byte>, done: seq<byte>, rest: seq<byte>) {
    /** Where column x goes. */
    function Place(x: nat): int { |done| + (x - x0) }

    /** Columns x0 .. x have been copied from s to dst. */
    ghost predicate Copied(dst: array<byte>, s: array<byte>, x: nat)
      reads dst, s
    {
      && x0 <= x <= x1 <= w && y < h && TiledSize(w, h) <= |src|
      && src == s[..] && dst != s
      && Place(x1) + |rest| == dst.Length
      && dst[..Place(x)] == done + Row(src, w, h, y, x0, x)
      && dst[Place(x1)..] == rest
    }
  }

  /** One memcpy of csc_tiled_to_linear_crop: n more columns, starting at column x. */
  method CopyStrip(dst: array<byte>, d: nat, src: array<byte>, s: nat, n: nat, ghost x: nat, ghost job: RowJob)
    requires job.Copied(dst, src, x)
    requires x + n <= job.x1 && x % 64 + n <= 64
    requires d == job.Place(x) && (n > 0 ==> s == Addr(job.w, job.h, x, job.y))
    modifies dst
    ensures job.Copied(dst, src, x + n)
  {
    hide Addr, Row, TiledSize;
    if n > 0 {
      RowStrip(job.src, job.w, job.h, job.y, job.x0, x, n);
      ghost var limit := job.Place(job.x1);
      Memcpy(dst, d, src, s, n);
      assert dst[limit..] == dst[d + n..][limit - d - n..];
      assert old(dst[limit..]) == old(dst[d + n..])[limit - d - n..];
    }
  }

  lemma CropPosition(left: nat)
    ensures var base := left / 256 * 256;
            && base % 256 == 0 && base / 64 % 4 == 0 && base / 64 * 64 == base
            && (left + 256) / 256 * 256 == base + 256
            && base <= left < base + 256
            && (left < base + 64 ==> left == base + left % 64)
            && (base + 64 <= left < base + 128 ==> left == base + 64 + left % 64)
            && (base + 128 <= left < base + 192 ==> left == base + 128 + left % 64)
            && (base + 192 <= left ==> left == base + 192 + left % 64)
  {
    var (m, r) := (left / 256, left % 256);
    Parts(256 * m, 64, 4 * m, 0);
    Parts(left + 256, 256, m + 1, r);
    Parts(left, 64, 4 * m + r / 64, r % 64);
  }

  /** The first strip of a row: columns left .. next multiple of 256. */
  method FirstStrip(dst: array<byte>, src: array<byte>, left: nat, linear: nat, tiledOffset: nat, tiledOffset1: nat,
                    ghost job: RowJob)
    returns (linearOffset: nat)
    requires job.Copied(dst, src, left)
    requires job.x0 == left && left + 256 <= job.x1 && linear == job.Place(left)
    requires tiledOffset == Addr(job.w, job.h, left / 256 * 256, job.y)
    requires tiledOffset1 == Addr(job.w, job.h, left / 256 * 256 + 128, job.y)
    modifies dst
    ensures linearOffset == job.Place(left / 256 * 256 + 256)
    ensures job.Copied(dst, src, left / 256 * 256 + 256)
  {
    hide Addr, TiledSize, RowJob.Copied;
    ghost var base := left / 256 * 256;
    CropPosition(left);
    StripBlocks(job.w, job.h, base, job.y);
    linearOffset := linear;
    var temp3 := (left + 256) / 256 * 256 - left;
    var temp1 := left % 64;
    if temp3 > 192 {
      StripIsContiguous(job.w, job.h, base, job.y, temp1);
      CopyStrip(dst, linearOffset, src, tiledOffset + temp1, 64 - temp1, left, job);
      CopyStrip(dst, linearOffset + 64 - temp1, src, tiledOffset + 2048, 64, base + 64, job);
      CopyStrip(dst, linearOffset + 128 - temp1, src, tiledOffset1, 64, base + 128, job);
      CopyStrip(dst, linearOffset + 192 - temp1, src, tiledOffset1 + 2048, 64, base + 192, job);
      linearOffset := linearOffset + 256 - temp1;
    } else if temp3 > 128 {
      StripIsContiguous(job.w, job.h, base + 64, job.y, temp1);
      CopyStrip(dst, linearOffset, src, tiledOffset + 2048 + temp1, 64 - temp1, left, job);
      CopyStrip(dst, linearOffset + 64 - temp1, src, tiledOffset1, 64, base + 128, job);
      CopyStrip(dst, linearOffset + 128 - temp1, src, tiledOffset1 + 2048, 64, base + 192, job);
      linearOffset := linearOffset + 192 - temp1;
    } else if temp3 > 64 {
      StripIsContiguous(job.w, job.h, base + 128, job.y, temp1);
      CopyStrip(dst, linearOffset, src, tiledOffset1 + temp1, 64 - temp1, left, job);
      CopyStrip(dst, linearOffset + 64 - temp1, src, tiledOffset1 + 2048, 64, base + 192, job);
      linearOffset := linearOffset + 128 - temp1;
    } else {
      StripIsContiguous(job.w, job.h, base + 192, job.y, temp1);
      CopyStrip(dst, linearOffset, src, tiledOffset1 + 2048 + temp1, 64 - temp1, left, job);
      linearOffset := linearOffset + 64 - temp1;
    }
  }

  /** A whole strip of 256 columns. */
  method WholeStrip(dst: array<byte>, src: array<byte>, linearOffset: nat, tiledOffset: nat, tiledOffset1: nat,
                    ghost j: nat, ghost job: RowJob)
    requires job.Copied(dst, src, j)
    requires j % 256 == 0 && j + 256 <= job.x1 && linearOffset == job.Place(j)
    requires tiledOffset == Addr(job.w, job.h, j, job.y) && tiledOffset1 == Addr(job.w, job.h, j + 128, job.y)
    modifies dst
    ensures job.Copied(dst, src, j + 256)
  {
    hide Addr, TiledSize, NextStrip, ThirdBlock, RowJob.Copied;
    StripBlocks(job.w, job.h, j, job.y);
    CopyStrip(dst, linearOffset, src, tiledOffset, 64, j, job);
    CopyStrip(dst, linearOffset + 64, src, tiledOffset + 2048, 64, j + 64, job);
    CopyStrip(dst, linearOffset + 128, src, tiledOffset1, 64, j + 128, job);
    CopyStrip(dst, linearOffset + 192, src, tiledOffset1 + 2048, 64, j + 192, job);
  }

  /** The ragged end of a row: the last temp2 < 256 columns. */
  method LastStrip(dst: array<byte>, src: array<byte>, temp2: nat, linearOffset: nat,
                   tiledOffset: nat, tiledOffset1: nat, ghost j: nat, ghost job: RowJob)
    requires job.Copied(dst, src, j)
    requires j % 256 == 0 && j + temp2 == job.x1 && temp2 < 256 && linearOffset == job.Place(j)
    requires tiledOffset == Addr(job.w, job.h, j, job.y) && tiledOffset1 == Addr(job.w, job.h, j + 128, job.y)
    modifies dst
    ensures job.Copied(dst, src, job.x1)
  {
    hide Addr, TiledSize, NextStrip, ThirdBlock, RowJob.Copied;
    StripBlocks(job.w, job.h, j, job.y);
    if temp2 > 192 {
      CopyStrip(dst, linearOffset, src, tiledOffset, 64, j, job);
      CopyStrip(dst, linearOffset + 64, src, tiledOffset + 2048, 64, j + 64, job);
      CopyStrip(dst, linearOffset + 128, src, tiledOffset1, 64, j + 128, job);
      CopyStrip(dst, linearOffset + 192, src, tiledOffset1 + 2048, temp2 - 192, j + 192, job);
    } else if temp2 > 128 {
      CopyStrip(dst, linearOffset, src, tiledOffset, 64, j, job);
      CopyStrip(dst, linearOffset + 64, src, tiledOffset + 2048, 64, j + 64, job);
      CopyStrip(dst, linearOffset + 128, src, tiledOffset1, temp2 - 128, j + 128, job);
    } else if temp2 > 64 {
      CopyStrip(dst, linearOffset, src, tiledOffset, 64, j, job);
      CopyStrip(dst, linearOffset + 64, src, tiledOffset + 2048, temp2 - 64, j + 64, job);
    } else {
      CopyStrip(dst, linearOffset, src, tiledOffset, temp2, j, job);
    }
  }

  // ----- Cropping ---------------------------------------------------------

  /** A w-by-h plane and how much of it is cut off on each side. */
  datatype Crop = Crop(w: nat, h: nat, left: nat, top: nat, right: nat, bottom: nat) {
    predicate Valid() { left + right <= w && top + bottom <= h }

    function Width(): nat
      requires Valid()
    {
      w - left - right
    }

    function Height(): nat
      requires Valid()
    {
      h - top - bottom
    }

    /** The column and the row behind the window. */
    function End(): nat
      requires Valid()
    {
      w - right
    }

    function Last(): nat
      requires Valid()
    {
      h - bottom
    }

    /** The branch below 64 columns copies two bytes at a time, from any left edge. */
    predicate Narrow()
      requires Valid()
    {
      Width() < 64
    }

    /** The branch between 64 and 255 columns copies one ragged strip and two whole ones, and takes the
        rest to lie in a single strip. */
    predicate Medium()
      requires Valid()
    {
      64 <= Width() < 256
    }

    /** Where that branch's last memcpy starts. */
    function LastStart(): nat
      requires Valid() && Medium()
    {
      var j := (left + 64) / 64 * 64;
      if j + 128 <= End() then j + 128 else if j + 64 <= End() then j + 64 else j
    }

    /** That memcpy is longer than a strip. */
    predicate PastStrip()
      requires Valid()
    {
      Medium() && Width() + left % 64 > 256
    }

    /** Two bytes are copied from the last column of a strip. */
    predicate SplitsPair()
      requires Valid()
    {
      Narrow() && left % 2 == 1 && left / 64 * 64 + 63 < End()
    }

    /** Bytes that a row puts behind its last column: the second of a pair when the width is odd. */
    function Over(): nat
      requires Valid()
    {
      if Narrow() then Width() % 2 else 0
    }

    /** The buffer holds the plane, and what may be read behind it. */
    predicate Readable(src: seq<byte>)
      requires Valid()
    {
      TiledSize(w, h) + (if PastStrip() then 64 else if SplitsPair() then 1 else 0) <= |src|
    }
  }

  lemma LastStartBounds(c: Crop)
    requires c.Valid() && c.Medium()
    ensures c.left < (c.left + 64) / 64 * 64 <= c.LastStart() <= c.End() && c.LastStart() % 64 == 0
    ensures c.End() - c.LastStart() <= 127
    ensures c.End() - c.LastStart() > 64 <==> c.PastStrip()
  {
    var m := c.left / 64;
    assert c.left == 64 * m + c.left % 64 && (c.left + 64) / 64 == m + 1;
  }

  // ----- What the converter reads -----------------------------------------

  /** Where tile_4x2_read finds column x of row y. */
  function ReadAddr(w: nat, h: nat, x: nat, y: nat): nat
    requires w > 0
  {
    Tile4x2Read(w, h, x, y) + x % 4
  }

  /** The column from which the memcpy that covers column x starts, in the branches that ask for addresses. */
  function StartOf(c: Crop, x: nat): nat
    requires c.Valid() && c.Width() < 256 && c.left <= x
  {
    if c.Narrow() then x - (x - c.left) % 2
    else if x < (c.left + 64) / 64 * 64 then c.left
    else if x >= c.LastStart() then c.LastStart()
    else x / 64 * 64
  }

  lemma StartBounds(c: Crop, x: nat)
    requires c.Valid() && c.Width() < 256 && c.left <= x < c.End() + c.Over()
    ensures c.left <= StartOf(c, x) <= x && StartOf(c, x) < c.End()
    ensures c.Narrow() ==> x - StartOf(c, x) <= 1
    ensures c.Narrow() && !c.SplitsPair() ==> StartOf(c, x) % 64 + (x - StartOf(c, x)) < 64
    ensures c.Medium() && !c.PastStrip() ==> StartOf(c, x) % 64 + (x - StartOf(c, x)) < 64
    ensures c.Medium() ==> StartOf(c, x) % 64 + (x - StartOf(c, x)) < 128
  {
    if c.Medium() {
      MediumStart(c, x);
    } else {
      NarrowStart(c, x);
    }
  }

  lemma NarrowStart(c: Crop, x: nat)
    requires c.Valid() && c.Narrow() && c.left <= x < c.End() + c.Over()
    ensures c.left <= StartOf(c, x) <= x <= StartOf(c, x) + 1 && StartOf(c, x) < c.End()
    ensures !c.SplitsPair() ==> StartOf(c, x) % 64 + (x - StartOf(c, x)) < 64
  {
    LastColumn(c.left, StartOf(c, x));
  }

  /** A pair that starts in the last column of a block starts in the block of the left edge, which is odd. */
  lemma LastColumn(l: nat, j: nat)
    requires l <= j < l + 64 && (j - l) % 2 == 0
    ensures j % 64 == 63 ==> l % 2 == 1 && l / 64 * 64 + 63 == j
  {
    var (m, n) := (l / 64, j / 64);
    assert l == 64 * m + l % 64 && j == 64 * n + j % 64;
    if j % 64 == 63 {
      assert m <= n < m + 1;
    }
  }

  lemma MediumStart(c: Crop, x: nat)
    requires c.Valid() && c.Medium() && c.left <= x < c.End()
    ensures c.left <= StartOf(c, x) <= x && StartOf(c, x) < c.End()
    ensures !c.PastStrip() ==> StartOf(c, x) % 64 + (x - StartOf(c, x)) < 64
    ensures StartOf(c, x) % 64 + (x - StartOf(c, x)) < 128
  {
    LastStartBounds(c);
    var m := c.left / 64;
    assert c.left == 64 * m + c.left % 64 && (c.left + 64) / 64 * 64 == 64 * (m + 1);
    hide Crop.LastStart;
  }

  /** The address from which column x of row y is copied. */
  function OutAddr(c: Crop, x: nat, y: nat): nat
    requires c.Valid() && c.w > 0 && c.left <= x
  {
    if c.Width() >= 256 then Addr(c.w, c.h, x, y)
    else ReadAddr(c.w, c.h, StartOf(c, x), y) + (x - StartOf(c, x))
  }

  lemma OutAddrReadable(c: Crop, src: seq<byte>, x: nat, y: nat)
    requires c.Valid() && c.Readable(src) && c.left <= x < c.End() + c.Over() && y < c.h
    ensures c.w > 0 && OutAddr(c, x, y) < |src|
  {
    hide Addr, Cols, Rows, TiledSize, PixelX, PixelY, Tile4x2Read, StartOf, Crop.LastStart;
    PlaneFits(c.w, c.h);
    if c.Width() >= 256 {
      AddrThenInverse(c.w, c.h, x, y);
    } else {
      StartBounds(c, x);
      var j := StartOf(c, x);
      Tile4x2ReadIsAddr(c.w, c.h, j, y);
      AddrThenInverse(c.w, c.h, j, y);
    }
  }

  /** What the converter makes of row y. */
  function OutRow(c: Crop, src: seq<byte>, y: nat): (row: seq<byte>)
    requires c.Valid() && c.Readable(src) && y < c.h
    ensures |row| == c.Width()
  {
    seq(c.Width(), k requires 0 <= k < c.Width() => OutByte(c, src, c.left + k, y))
  }

  function OutByte(c: Crop, src: seq<byte>, x: nat, y: nat): byte
    requires c.Valid() && c.Readable(src) && c.left <= x < c.End() + c.Over() && y < c.h
  {
    OutAddrReadable(c, src, x, y);
    src[OutAddr(c, x, y)]
  }

  /** What the converter makes of rows top .. y. */
  function Output(c: Crop, src: seq<byte>, y: nat): seq<byte>
    requires c.Valid() && c.Readable(src) && c.top <= y <= c.Last()
    decreases y
  {
    if y == c.top then [] else Output(c, src, y - 1) + OutRow(c, src, y - 1)
  }

  /** What it puts behind the window. */
  function Tail(c: Crop, src: seq<byte>): seq<byte>
    requires c.Valid() && c.Readable(src)
  {
    if c.Over() == 1 && c.Height() > 0 then [OutByte(c, src, c.End(), c.Last() - 1)] else []
  }

  lemma {:induction false} OutputLength(c: Crop, src: seq<byte>, y: nat)
    requires c.Valid() && c.Readable(src) && c.top <= y <= c.Last()
    ensures |Output(c, src, y)| == c.Width() * (y - c.top)
    decreases y
  {
    hide OutRow, Crop.Readable;
    if y > c.top {
      OutputLength(c, src, y - 1);
      assert c.Width() * (y - c.top) == c.Width() * (y - 1 - c.top) + c.Width();
    }
  }

  // ----- The rows ---------------------------------------------------------

  /** A row has been put at linear, and nothing changed but its overhang. */
  ghost predicate RowPut(c: Crop, before: seq<byte>, after: seq<byte>, s: seq<byte>, i: nat, linear: nat)
    requires c.Valid() && c.Readable(s) && i < c.h
  {
    var n := linear + c.Width();
    && n + c.Over() <= |before| == |after|
    && after[..n] == before[..linear] + OutRow(c, s, i)
    && after[n + c.Over()..] == before[n + c.Over()..]
    && (c.Over() == 1 ==> after[n] == OutByte(c, s, c.End(), i))
  }

  /** The whole strips after the first: the loop with running offsets. */
  method MiddleStrips(dst: array<byte>, src: array<byte>, xe: nat, j0: nat, linearOffset0: nat,
                      tiledOffset0: nat, tiledOffset01: nat, temp4: nat, ghost job: RowJob)
    returns (j: nat, linearOffset: nat, tiledOffset: nat, tiledOffset1: nat)
    requires job.Copied(dst, src, j0)
    requires job.x1 == xe && 256 <= xe && j0 % 256 == 0 && j0 <= xe && linearOffset0 == job.Place(j0)
    requires temp4 == NextStrip(job.h, job.y) && tiledOffset0 == Addr(job.w, job.h, j0, job.y)
    requires tiledOffset01 + temp4 * 2048 == Addr(job.w, job.h, j0 + 128, job.y)
    modifies dst
    ensures job.Copied(dst, src, j) && j % 256 == 0 && j <= xe < j + 256 && linearOffset == job.Place(j)
    ensures tiledOffset == Addr(job.w, job.h, j, job.y)
    ensures tiledOffset1 + temp4 * 2048 == Addr(job.w, job.h, j + 128, job.y)
  {
    hide Addr, TiledSize, NextStrip, ThirdBlock, RowJob.Copied;
    j, linearOffset, tiledOffset, tiledOffset1 := j0, linearOffset0, tiledOffset0, tiledOffset01;
    var temp2 := xe - 256;
    while j <= temp2
      invariant j % 256 == 0 && j <= xe && linearOffset == job.Place(j)
      invariant tiledOffset == Addr(job.w, job.h, j, job.y)
      invariant tiledOffset1 + temp4 * 2048 == Addr(job.w, job.h, j + 128, job.y)
      invariant job.Copied(dst, src, j)
    {
      StripBlocks(job.w, job.h, j, job.y);
      StripBlocks(job.w, job.h, j + 256, job.y);
      tiledOffset1 := tiledOffset1 + temp4 * 2048;
      WholeStrip(dst, src, linearOffset, tiledOffset, tiledOffset1, j, job);
      tiledOffset := tiledOffset + temp4 * 2048;
      linearOffset := linearOffset + 256;
      j := j + 256;
    }
  }

  /** One row of the branch for 256 columns and more. */
  method UntileRowWide(c: Crop, dst: array<byte>, src: array<byte>, i: nat, linear: nat)
    requires dst != src && c.Valid() && c.Width() >= 256 && c.Readable(src[..]) && i < c.h
    requires linear + c.Width() <= dst.Length
    modifies dst
    ensures RowPut(c, old(dst[..]), dst[..], src[..], i, linear)
  {
    hide Addr, TiledSize, NextStrip, ThirdBlock, RowJob.Copied, Crop.Readable, OutRow, Row, RowPut;
    ghost var s, before := src[..], dst[..];
    ghost var job := RowJob(c.w, c.h, c.left, c.End(), i, s, before[..linear], before[linear + c.Width()..]);
    NothingCopied(c, dst, src, job, linear);
    var j := c.left / 256 * 256;
    CropPosition(c.left);
    var tiledOffset, tiledOffset1, temp4 := StripBase(c.w, c.h, j / 64, i);
    StripBlocks(c.w, c.h, j, i);
    StripBlocks(c.w, c.h, j + 256, i);
    var linearOffset := FirstStrip(dst, src, c.left, linear, tiledOffset, tiledOffset1, job);
    tiledOffset := tiledOffset + temp4 * 2048;
    j, linearOffset, tiledOffset, tiledOffset1 := MiddleStrips(
      dst, src, c.w - c.right, j + 256, linearOffset, tiledOffset, tiledOffset1, temp4, job);
    tiledOffset1 := tiledOffset1 + temp4 * 2048;
    LastStrip(dst, src, c.w - c.right - j, linearOffset, tiledOffset, tiledOffset1, j, job);
    assert src[..] == s;
    WideRow(c, dst, src, job, before, linear);
  }

  lemma NothingCopied(c: Crop, dst: array<byte>, src: array<byte>, job: RowJob, linear: nat)
    requires dst != src && c.Valid() && c.Readable(src[..]) && job.y < c.h && linear + c.Width() <= dst.Length
    requires job == RowJob(c.w, c.h, c.left, c.End(), job.y, src[..], dst[..linear], dst[linear + c.Width()..])
    ensures job.Copied(dst, src, c.left) && job.Place(c.left) == linear
  {
    hide Addr, Pixel, TiledSize;
    assert Row(job.src, c.w, c.h, job.y, c.left, c.left) == [];
  }

  lemma WideRow(c: Crop, dst: array<byte>, src: array<byte>, job: RowJob, before: seq<byte>, linear: nat)
    requires c.Valid() && c.Width() >= 256 && c.Readable(src[..]) && job.y < c.h && linear + c.Width() <= |before|
    requires job == RowJob(c.w, c.h, c.left, c.End(), job.y, src[..], before[..linear], before[linear + c.Width()..])
    requires job.Copied(dst, src, c.End()) && |before| == dst.Length
    ensures RowPut(c, before, dst[..], src[..], job.y, linear)
  {
    hide Addr, TiledSize;
    OutRowIsRow(c, src[..], job.y);
  }

  /** When every column is copied from its own address, the row is a row of the plane. */
  lemma OutRowIsRow(c: Crop, src: seq<byte>, y: nat)
    requires c.Valid() && c.Readable(src) && y < c.h
    requires forall x {:trigger OutAddr(c, x, y)} | c.left <= x < c.End() :: OutAddr(c, x, y) == Addr(c.w, c.h, x, y)
    ensures TiledSize(c.w, c.h) <= |src| && OutRow(c, src, y) == Row(src, c.w, c.h, y, c.left, c.End())
  {
    hide Addr, TiledSize, OutAddr, Crop.Medium, Crop.Narrow;
    var (row, plain) := (OutRow(c, src, y), Row(src, c.w, c.h, y, c.left, c.End()));
    forall k: nat {:trigger row[k]} | k < c.Width()
      ensures row[k] == plain[k]
    {
      OutAddrReadable(c, src, c.left + k, y);
      var x := c.left + k;
      assert row[k] == OutByte(c, src, x, y) == src[OutAddr(c, x, y)];
      assert plain[k] == Pixel(src, c.w, c.h, x, y) == src[Addr(c.w, c.h, x, y)];
    }
  }

  /** The row has been copied up to column x, and nothing behind it changed. */
  ghost predicate RowUpto(c: Crop, before: seq<byte>, now: seq<byte>, s: seq<byte>, i: nat, linear: nat, x: nat)
    requires c.Valid() && c.Readable(s) && i < c.h
  {
    && c.left <= x <= c.End()
    && linear + c.Width() <= |before| == |now|
    && now[..linear + (x - c.left)] == before[..linear] + OutRow(c, s, i)[..x - c.left]
    && now[linear + (x - c.left)..] == before[linear + (x - c.left)..]
  }

  /** One memcpy of a row of 64 to 255 columns: n columns, all copied from one start. */
  method CopySegment(c: Crop, dst: array<byte>, src: array<byte>, i: nat, linearOffset: nat, s: nat, n: nat,
                     ghost before: seq<byte>, ghost linear: nat, ghost x: nat)
    requires dst != src && c.Valid() && c.Medium() && c.Readable(src[..]) && i < c.h && c.w > 0
    requires RowUpto(c, before, dst[..], src[..], i, linear, x) && linearOffset == linear + (x - c.left)
    requires n > 0 && x + n <= c.End() && s == ReadAddr(c.w, c.h, x, i)
    requires forall k {:trigger StartOf(c, k)} | x <= k < x + n :: StartOf(c, k) == x
    modifies dst
    ensures RowUpto(c, before, dst[..], src[..], i, linear, x + n)
  {
    hide Addr, TiledSize, StartOf, Tile4x2Read, Crop.Readable, OutRow, RowUpto;
    ghost var was := dst[..];
    SegmentRoom(c, before, was, src[..], i, linear, x, n);
    SegmentBytes(c, src[..], i, x, n);
    Memcpy(dst, linearOffset, src, s, n);
    assert dst[..][..linearOffset + n] == dst[..linearOffset + n] && was[..linearOffset] == was[..][..linearOffset];
    SegmentCopied(c, before, was, dst[..], src[..], i, linear, x, n, s);
  }

  lemma SegmentRoom(c: Crop, before: seq<byte>, was: seq<byte>, s: seq<byte>, i: nat, linear: nat, x: nat, n: nat)
    requires c.Valid() && c.Readable(s) && i < c.h && RowUpto(c, before, was, s, i, linear, x) && x + n <= c.End()
    ensures c.left <= x && linear + (x - c.left) + n <= |was|
  {
    hide OutRow, Crop.Readable;
  }

  lemma SegmentCopied(c: Crop, before: seq<byte>, was: seq<byte>, now: seq<byte>, s: seq<byte>, i: nat, linear: nat,
                      x: nat, n: nat, a: nat)
    requires c.Valid() && c.Readable(s) && i < c.h && RowUpto(c, before, was, s, i, linear, x) && x + n <= c.End()
    requires a + n <= |s| && OutRow(c, s, i)[x - c.left..x + n - c.left] == s[a..a + n]
    requires var d := linear + (x - c.left);
             d + n <= |now| == |was| && now[..d + n] == was[..d] + s[a..a + n] && now[d + n..] == was[d + n..]
    ensures RowUpto(c, before, now, s, i, linear, x + n)
  {
    hide OutRow, Crop.Readable;
    var (d, row) := (linear + (x - c.left), OutRow(c, s, i));
    assert row[..x + n - c.left] == row[..x - c.left] + row[x - c.left..x + n - c.left];
    assert now[d + n..] == was[d..][n..] == before[d..][n..];
  }

  lemma SegmentBytes(c: Crop, src: seq<byte>, y: nat, x: nat, n: nat)
    requires c.Valid() && c.Width() < 256 && c.Readable(src) && y < c.h && c.w > 0
    requires n > 0 && c.left <= x && x + n <= c.End()
    requires forall k {:trigger StartOf(c, k)} | x <= k < x + n :: StartOf(c, k) == x
    ensures var a := ReadAddr(c.w, c.h, x, y);
            a + n <= |src| && OutRow(c, src, y)[x - c.left..x + n - c.left] == src[a..a + n]
  {
    hide Addr, TiledSize, StartOf, Tile4x2Read, Crop.Readable;
    var a := ReadAddr(c.w, c.h, x, y);
    var segment := OutRow(c, src, y)[x - c.left..x + n - c.left];
    OutAddrReadable(c, src, x + n - 1, y);
    assert StartOf(c, x + n - 1) == x;
    forall d: nat {:trigger segment[d]} | d < n
      ensures segment[d] == src[a..a + n][d]
    {
      OutAddrReadable(c, src, x + d, y);
      assert StartOf(c, x + d) == x;
      assert segment[d] == OutRow(c, src, y)[x - c.left + d] == OutByte(c, src, c.left + (x - c.left + d), y);
    }
  }

  /** Which columns the memcpys of a medium row cover. */
  lemma Segments(c: Crop, j: nat, n: nat)
    requires c.Valid() && c.Medium()
    requires var e := (c.left + 64) / 64 * 64;
             || (j == c.left && n == e - j)
             || (n == 64 && (j == e || j == e + 64) && j + n <= c.LastStart())
             || (j == c.LastStart() && n == c.End() - j)
    ensures forall k {:trigger StartOf(c, k)} | j <= k < j + n :: StartOf(c, k) == j
    ensures j + n <= c.End()
  {
    LastStartBounds(c);
    forall k {:trigger StartOf(c, k)} | j <= k < j + n
      ensures StartOf(c, k) == j
    {
      var m := c.left / 64;
      assert (c.left + 64) / 64 * 64 == 64 * (m + 1);
      if n == 64 && j % 64 == 0 && j + n <= c.LastStart() && j != c.left {
        Parts(k, 64, j / 64, k - j);
      }
    }
  }

  lemma ToStripEnd(j: nat)
    ensures var e := (j + 64) / 64 * 64;
            && e - j == 64 - j % 64 && e % 64 == 0 && e % 4 == 0
            && (e + 64) % 64 == 0 && (e + 64) % 4 == 0
  {}

  /** One row of the branch for 64 to 255 columns. */
  method UntileRowMedium(c: Crop, dst: array<byte>, src: array<byte>, i: nat, linear: nat)
    requires dst != src && c.Valid() && c.Medium() && c.Readable(src[..]) && i < c.h
    requires linear + c.Width() <= dst.Length
    modifies dst
    ensures RowPut(c, old(dst[..]), dst[..], src[..], i, linear)
  {
    hide Addr, Tile4x2Read, TiledSize, Crop.LastStart, OutRow, RowPut, RowUpto, Crop.Readable, StartOf;
    ghost var s, before := src[..], dst[..];
    var temp3 := c.w - c.right;
    RowBegins(c, before, s, i, linear);
    MediumSteps(c);
    var j, linearOffset := c.left, linear;
    var tiledOffset := Tile4x2Read(c.w, c.h, j, i);
    var temp2 := (j + 64) / 64 * 64 - j;
    Segments(c, j, temp2);
    CopySegment(c, dst, src, i, linearOffset, tiledOffset + j % 4, temp2, before, linear, j);
    linearOffset := linearOffset + temp2;
    j := j + temp2;
    if j + 64 <= temp3 {
      tiledOffset := Tile4x2Read(c.w, c.h, j, i);
      Segments(c, j, 64);
      CopySegment(c, dst, src, i, linearOffset, tiledOffset, 64, before, linear, j);
      linearOffset := linearOffset + 64;
      j := j + 64;
    }
    if j + 64 <= temp3 {
      tiledOffset := Tile4x2Read(c.w, c.h, j, i);
      Segments(c, j, 64);
      CopySegment(c, dst, src, i, linearOffset, tiledOffset, 64, before, linear, j);
      linearOffset := linearOffset + 64;
      j := j + 64;
    }
    if j < temp3 {
      tiledOffset := Tile4x2Read(c.w, c.h, j, i);
      Segments(c, j, temp3 - j);
      CopySegment(c, dst, src, i, linearOffset, tiledOffset, temp3 - j, before, linear, j);
    }
    assert src[..] == s;
    RowEnds(c, before, dst[..], s, i, linear);
  }

  /** The strip ends of a medium row, and where its last memcpy starts. */
  lemma MediumSteps(c: Crop)
    requires c.Valid() && c.Medium()
    ensures var e := (c.left + 64) / 64 * 64;
            && c.left < e <= c.End() && e % 4 == 0 && (e + 64) % 4 == 0 && (e + 128) % 4 == 0
            && c.LastStart() == if e + 128 <= c.End() then e + 128 else if e + 64 <= c.End() then e + 64 else e
  {
    ToStripEnd(c.left);
  }

  lemma RowBegins(c: Crop, before: seq<byte>, s: seq<byte>, i: nat, linear: nat)
    requires c.Valid() && c.Readable(s) && i < c.h && linear + c.Width() <= |before|
    ensures RowUpto(c, before, before, s, i, linear, c.left)
  {
    hide OutRow, Crop.Readable;
  }

  lemma RowEnds(c: Crop, before: seq<byte>, now: seq<byte>, s: seq<byte>, i: nat, linear: nat)
    requires c.Valid() && c.Medium() && c.Readable(s) && i < c.h && RowUpto(c, before, now, s, i, linear, c.End())
    ensures RowPut(c, before, now, s, i, linear)
  {
    hide OutRow, Crop.Readable;
    assert OutRow(c, s, i)[..c.Width()] == OutRow(c, s, i);
  }

  /** One row of the branch below 64 columns: two bytes at a time, the second of the last pair possibly behind the row. */
  method UntileRowNarrow(c: Crop, dst: array<byte>, src: array<byte>, i: nat, linear: nat)
    requires dst != src && c.Valid() && c.Narrow() && c.Readable(src[..]) && i < c.h
    requires linear + c.Width() + c.Over() <= dst.Length
    modifies dst
    ensures RowPut(c, old(dst[..]), dst[..], src[..], i, linear)
  {
    hide Addr, Tile4x2Read, TiledSize, Crop.Readable, OutRow, OutByte, RowPut, StartOf, OutAddr, Crop.SplitsPair;
    ghost var s, before := src[..], dst[..];
    var linearOffset := linear;
    var j := c.left;
    while j < c.w - c.right
      invariant src[..] == s && c.left <= j <= c.End() + c.Over() && (j - c.left) % 2 == 0
      invariant linearOffset == linear + (j - c.left)
      invariant dst[..linear] == before[..linear] && dst[linearOffset..] == before[linearOffset..]
      invariant forall x {:trigger OutByte(c, s, x, i)} | c.left <= x < j :: dst[linear + (x - c.left)] == OutByte(c, s, x, i)
    {
      PairBytes(c, s, j, i);
      var tiledOffset := Tile4x2Read(c.w, c.h, j, i);
      tiledOffset := tiledOffset + j % 4;
      ghost var was := dst[..];
      Memcpy(dst, linearOffset, src, tiledOffset, 2);
      PairCopied(c, before, was, dst[..], s, i, linear, j);
      linearOffset := linearOffset + 2;
      j := j + 2;
    }
    NarrowRow(c, before, dst[..], s, i, linear);
  }

  /** The pair at column j is two bytes of the buffer. */
  lemma PairBytes(c: Crop, s: seq<byte>, j: nat, y: nat)
    requires c.Valid() && c.Narrow() && c.Readable(s) && y < c.h && c.left <= j < c.End() && (j - c.left) % 2 == 0
    ensures c.w > 0 && j + 2 <= c.End() + c.Over()
    ensures var a := ReadAddr(c.w, c.h, j, y);
            a + 2 <= |s| && s[a] == OutByte(c, s, j, y) && s[a + 1] == OutByte(c, s, j + 1, y)
  {
    hide Addr, Tile4x2Read, TiledSize, Crop.Readable;
    assert StartOf(c, j) == j && StartOf(c, j + 1) == j;
    OutAddrReadable(c, s, j, y);
    OutAddrReadable(c, s, j + 1, y);
  }

  lemma PairCopied(c: Crop, before: seq<byte>, was: seq<byte>, now: seq<byte>, s: seq<byte>, i: nat, linear: nat, j: nat)
    requires c.Valid() && c.Narrow() && c.Readable(s) && i < c.h && c.left <= j < c.End() && j + 2 <= c.End() + c.Over()
    requires linear + c.Width() + c.Over() <= |before| == |was| == |now| && c.w > 0
    requires var (d, a) := (linear + (j - c.left), ReadAddr(c.w, c.h, j, i));
             && was[..linear] == before[..linear] && was[d..] == before[d..] && a + 2 <= |s|
             && s[a] == OutByte(c, s, j, i) && s[a + 1] == OutByte(c, s, j + 1, i)
             && now[..d + 2] == was[..d] + s[a..a + 2] && now[d + 2..] == was[d + 2..]
    requires forall x {:trigger OutByte(c, s, x, i)} | c.left <= x < j :: was[linear + (x - c.left)] == OutByte(c, s, x, i)
    ensures now[..linear] == before[..linear] && now[linear + (j - c.left) + 2..] == before[linear + (j - c.left) + 2..]
    ensures forall x {:trigger OutByte(c, s, x, i)} | c.left <= x < j + 2 ::
              now[linear + (x - c.left)] == OutByte(c, s, x, i)
  {
    hide OutByte, ReadAddr, Crop.Readable;
    var (d, a) := (linear + (j - c.left), ReadAddr(c.w, c.h, j, i));
    assert now[..linear] == now[..d + 2][..linear] == was[..d][..linear];
    assert now[d + 2..] == was[d..][2..] == before[d..][2..];
    forall x {:trigger OutByte(c, s, x, i)} | c.left <= x < j + 2
      ensures now[linear + (x - c.left)] == OutByte(c, s, x, i)
    {
      assert now[linear + (x - c.left)] == now[..d + 2][linear + (x - c.left)];
    }
  }

  lemma NarrowRow(c: Crop, before: seq<byte>, now: seq<byte>, s: seq<byte>, i: nat, linear: nat)
    requires c.Valid() && c.Narrow() && c.Readable(s) && i < c.h
    requires linear + c.Width() + c.Over() <= |before| == |now| && now[..linear] == before[..linear]
    requires var n := linear + c.Width() + c.Over(); now[n..] == before[n..]
    requires forall x {:trigger OutByte(c, s, x, i)} | c.left <= x < c.End() + c.Over() ::
               now[linear + (x - c.left)] == OutByte(c, s, x, i)
    ensures RowPut(c, before, now, s, i, linear)
  {
    hide OutByte, Crop.Readable;
    var row := OutRow(c, s, i);
    forall k: nat | k < c.Width()
      ensures now[linear + k] == row[k]
    {
      assert row[k] == OutByte(c, s, c.left + k, i);
    }
    assert now[..linear + c.Width()] == now[..linear] + row;
  }

  // ----- The converter ----------------------------------------------------

  /** What follows the window once the rows above row i are done. */
  function Behind(c: Crop, s: seq<byte>, i: nat, rest: seq<byte>): seq<byte>
    requires c.Valid() && c.Readable(s) && (c.Height() > 0 ==> c.Over() <= |rest|)
  {
    if i == c.Last() && Tail(c, s) != [] then Tail(c, s) + rest[1..] else rest
  }

  /** Rows top .. i of the window are in dst; rest followed the whole window. */
  ghost predicate RowsDone(c: Crop, dst: seq<byte>, s: seq<byte>, i: nat, rest: seq<byte>)
  {
    && c.Valid() && c.Readable(s) && c.top <= i <= c.Last()
    && c.Width() * c.Height() + |rest| == |dst| && (c.Height() > 0 ==> c.Over() <= |rest|)
    && 0 <= c.Width() * (i - c.top) <= c.Width() * c.Height()
    && dst[..c.Width() * (i - c.top)] == Output(c, s, i)
    && dst[c.Width() * c.Height()..] == Behind(c, s, i, rest)
  }

  lemma RowRange(c: Crop, i: nat)
    requires c.Valid() && c.top <= i < c.Last()
    ensures 0 <= c.Width() * (i - c.top) && c.Width() * (i + 1 - c.top) == c.Width() * (i - c.top) + c.Width()
    ensures c.Width() * (i + 1 - c.top) <= c.Width() * c.Height()
    ensures i + 1 < c.Last() ==> c.Width() * (i + 1 - c.top) + c.Width() <= c.Width() * c.Height()
  {
    MulMono(0, c.Width(), i - c.top);
    MulMono(i + 1 - c.top, c.Height(), c.Width());
    if i + 1 < c.Last() {
      MulMono(i + 2 - c.top, c.Height(), c.Width());
      assert c.Width() * (i + 2 - c.top) == c.Width() * (i + 1 - c.top) + c.Width();
    }
  }

  lemma OneMoreRow(c: Crop, before: seq<byte>, after: seq<byte>, s: seq<byte>, i: nat, rest: seq<byte>)
    requires RowsDone(c, before, s, i, rest) && i < c.Last()
    requires 0 <= c.Width() * (i - c.top) && RowPut(c, before, after, s, i, c.Width() * (i - c.top))
    ensures RowsDone(c, after, s, i + 1, rest)
  {
    hide OutRow, OutByte, Crop.Readable, Crop.Narrow, Tail;
    RowRange(c, i);
    var (k, n) := (c.Width() * (i + 1 - c.top), c.Width() * c.Height());
    if i + 1 < c.Last() {
      SameEnd(before, after, k + c.Over(), n);
    } else {
      TailIs(c, s);
      LastEnd(before, after, n, c.Over(), rest, Tail(c, s));
    }
  }

  lemma SameEnd(before: seq<byte>, after: seq<byte>, k: nat, n: nat)
    requires k <= n <= |before| == |after| && after[k..] == before[k..]
    ensures after[n..] == before[n..]
  {
    assert after[n..] == after[k..][n - k..] == before[k..][n - k..];
  }

  lemma LastEnd(before: seq<byte>, after: seq<byte>, n: nat, o: nat, rest: seq<byte>, tail: seq<byte>)
    requires n + o <= |before| == |after| && before[n..] == rest && after[n + o..] == before[n + o..]
    requires |tail| == o <= 1 && (o == 1 ==> after[n] == tail[0])
    ensures after[n..] == tail + rest[o..]
  {
    assert before[n + o..] == rest[o..];
    assert after[n..] == after[n..n + o] + after[n + o..];
  }

  lemma TailIs(c: Crop, s: seq<byte>)
    requires c.Valid() && c.Readable(s) && c.Height() > 0
    ensures |Tail(c, s)| == c.Over() <= 1
    ensures c.Over() == 1 ==> Tail(c, s)[0] == OutByte(c, s, c.End(), c.Last() - 1)
  {
    hide OutByte, Crop.Readable;
  }

  /** csc_tiled_to_linear_crop, for every crop. A narrow window of odd width needs one byte behind it. */
  method TiledToLinearCrop(dst: array<byte>, src: array<byte>,
                           w: nat, h: nat, left: nat, top: nat, right: nat, bottom: nat)
    requires dst != src
    requires var c := Crop(w, h, left, top, right, bottom);
             c.Valid() && c.Readable(src[..]) && c.Width() * c.Height() + |Tail(c, src[..])| <= dst.Length
    modifies dst
    ensures var c := Crop(w, h, left, top, right, bottom);
            var (n, tail) := (c.Width() * c.Height(), Tail(c, src[..]));
            && 0 <= n && dst[..n] == Output(c, src[..], c.Last())
            && dst[n..n + |tail|] == tail && dst[n + |tail|..] == old(dst[n + |tail|..])
  {
    hide OutByte, OutRow, Crop.Readable, RowPut, Output, Tail, RowsDone, Crop.Over;
    var c := Crop(w, h, left, top, right, bottom);
    ghost var s := src[..];
    MulMono(0, c.Width(), c.Height());
    ghost var n := c.Width() * c.Height();
    ghost var rest := dst[n..];
    var i := top;
    NoRowsDone(c, dst[..], s, rest);
    while i < h - bottom
      invariant top <= i <= h - bottom && src[..] == s
      invariant RowsDone(c, dst[..], s, i, rest)
    {
      ghost var before := dst[..];
      RoomForRow(c, before, s, i, rest);
      var linearOffset := c.Width() * (i - top);
      if c.Width() >= 256 {
        UntileRowWide(c, dst, src, i, linearOffset);
      } else if c.Width() >= 64 {
        UntileRowMedium(c, dst, src, i, linearOffset);
      } else {
        UntileRowNarrow(c, dst, src, i, linearOffset);
      }
      OneMoreRow(c, before, dst[..], s, i, rest);
      i := i + 1;
    }
    AllRows(c, dst[..], s, rest);
  }

  lemma RoomForRow(c: Crop, dst: seq<byte>, s: seq<byte>, i: nat, rest: seq<byte>)
    requires c.Valid() && i < c.Last() && RowsDone(c, dst, s, i, rest)
    ensures 0 <= c.Width() * (i - c.top) && c.Width() * (i - c.top) + c.Width() + c.Over() <= |dst|
  {
    hide Output, Behind, Crop.Readable;
    RowRange(c, i);
  }

  lemma NoRowsDone(c: Crop, dst: seq<byte>, s: seq<byte>, rest: seq<byte>)
    requires c.Valid() && c.Readable(s) && 0 <= c.Width() * c.Height() <= |dst|
    requires rest == dst[c.Width() * c.Height()..] && |Tail(c, s)| <= |rest|
    ensures RowsDone(c, dst, s, c.top, rest)
  {
    hide OutByte, OutRow, Crop.Readable;
    assert c.Width() * 0 == 0;
  }

  lemma AllRows(c: Crop, dst: seq<byte>, s: seq<byte>, rest: seq<byte>)
    requires c.Valid() && RowsDone(c, dst, s, c.Last(), rest)
    ensures var (n, tail) := (c.Width() * c.Height(), Tail(c, s));
            && 0 <= n && n + |tail| <= |dst| && |tail| <= |rest|
            && dst[..n] == Output(c, s, c.Last())
            && dst[n..n + |tail|] == tail && dst[n + |tail|..] == rest[|tail|..]
  {
    hide OutByte, OutRow, Crop.Readable;
    var (n, tail) := (c.Width() * c.Height(), Tail(c, s));
    var behind := dst[n..];
    assert dst[n..n + |tail|] == behind[..|tail|] && dst[n + |tail|..] == behind[|tail|..];
  }

  // ----- When the converter is right --------------------------------------

  lemma {:induction false} OutputAt(c: Crop, src: seq<byte>, y: nat, row: nat, k: nat)
    requires c.Valid() && c.Readable(src) && c.top <= row < y <= c.Last() && k < c.Width()
    ensures 0 <= c.Width() * (row - c.top) + k < |Output(c, src, y)|
    ensures Output(c, src, y)[c.Width() * (row - c.top) + k] == OutRow(c, src, row)[k]
    decreases y
  {
    hide OutRow, Crop.Readable;
    OutputLength(c, src, y);
    OutputLength(c, src, y - 1);
    MulMono(0, c.Width(), row - c.top);
    if row < y - 1 {
      OutputAt(c, src, y - 1, row, k);
    }
  }

  /** The condition under which csc_tiled_to_linear_crop cuts out the window of every tiled plane: below 256 columns the
      window lies within the first 16384 columns and rows, a medium one is at most 256 wide from the start of its first
      block, and a narrow one starts at an even column or stays within one block. */
  predicate CutsCleanly(c: Crop)
    requires c.Valid()
  {
    || c.Width() == 0
    || c.Width() >= 256
    || (c.End() <= 16384 && c.Last() <= 16384 &&
        if c.Medium() then c.Width() + c.left % 64 <= 256 else c.left % 2 == 0 || c.left % 64 + c.Width() <= 64)
  }

  /** Then every column is copied from its own address. */
  lemma CleanAddresses(c: Crop, x: nat, y: nat)
    requires c.Valid() && CutsCleanly(c) && c.left <= x < c.End() && c.top <= y < c.Last()
    ensures OutAddr(c, x, y) == Addr(c.w, c.h, x, y)
  {
    hide Addr, Tile4x2Read, StartOf, Crop.LastStart;
    if c.Width() < 256 {
      StartBounds(c, x);
      var j := StartOf(c, x);
      Tile4x2ReadIsAddr(c.w, c.h, j, y);
      assert j % 64 + (x - j) < 64 by { CleanStart(c, x); }
      StripIsContiguous(c.w, c.h, j, y, x - j);
    }
  }

  lemma CleanStart(c: Crop, x: nat)
    requires c.Valid() && CutsCleanly(c) && c.Width() < 256 && c.left <= x < c.End()
    ensures StartOf(c, x) % 64 + (x - StartOf(c, x)) < 64
  {
    StartBounds(c, x);
    if c.Narrow() {
      LastColumn(c.left, StartOf(c, x));
      assert c.left == c.left / 64 * 64 + c.left % 64;
      hide Crop.SplitsPair;
    }
  }

  /** Else some column of the first or the last row is not. */
  lemma UncleanAddress(c: Crop) returns (x: nat, y: nat)
    requires c.Valid() && !CutsCleanly(c) && c.Height() > 0
    ensures c.left <= x < c.End() && c.top <= y < c.Last() && OutAddr(c, x, y) != Addr(c.w, c.h, x, y)
  {
    hide Addr, Tile4x2Read, Crop.LastStart;
    y := if c.Last() > 16384 then c.Last() - 1 else c.top;
    if y >= 16384 || c.left >= 16384 {
      x := c.left;
      FirstStart(c);
      Tile4x2ReadIsAddr(c.w, c.h, x, y);
    } else if c.Narrow() {
      x := NarrowFault(c, y);
    } else {
      x := MediumFault(c, y);
    }
  }

  lemma FirstStart(c: Crop)
    requires c.Valid() && 0 < c.Width() < 256
    ensures StartOf(c, c.left) == c.left
  {
    if c.Medium() {
      LastStartBounds(c);
    }
  }

  /** A narrow window that reaches column 16384 asks for it, or takes it as the second of a pair. An odd left edge that
      does not stay within a block makes a pair of the last column of the block and the first of the next. */
  lemma NarrowFault(c: Crop, y: nat) returns (x: nat)
    requires c.Valid() && c.Narrow() && 0 < c.Width() && c.left < 16384 && y < 16384 && y < c.h
    requires c.End() > 16384 || (c.left % 2 == 1 && c.left % 64 + c.Width() > 64)
    ensures c.left <= x < c.End() && OutAddr(c, x, y) != Addr(c.w, c.h, x, y)
  {
    hide Addr, Tile4x2Read;
    x := if c.left % 2 == 1 && c.left % 64 + c.Width() > 64 then c.left / 64 * 64 + 64 else 16384;
    var m := c.left / 64;
    assert c.left == 64 * m + c.left % 64;
    if c.left % 2 == 1 {
      assert c.left % 64 + c.Width() > 64;
      assert StartOf(c, x) == x - 1;
      Tile4x2ReadIsAddr(c.w, c.h, x - 1, y);
      NextBlock(c.w, c.h, x - 1, y);
    } else {
      assert StartOf(c, x) == x;
      Tile4x2ReadIsAddr(c.w, c.h, x, y);
    }
  }

  /** A block and its right neighbour do not lie one byte after the other. */
  lemma NextBlock(w: nat, h: nat, x: nat, y: nat)
    requires x % 64 == 63
    ensures Addr(w, h, x + 1, y) != Addr(w, h, x, y) + 1
  {
    OffsetInBlock(w, h, x - 63, y);
    hide Block;
    var m := x / 64;
    assert x == 64 * m + 63;
    Parts(x + 1, 64, m + 1, 0);
    Parts(x - 63, 64, m, 0);
  }

  /** A medium window that reaches column 16384 asks for it; the last memcpy of one that is too wide leaves its strip. */
  lemma MediumFault(c: Crop, y: nat) returns (x: nat)
    requires c.Valid() && c.Medium() && c.left < 16384 && y < 16384 && y < c.h
    requires c.End() > 16384 || c.PastStrip()
    ensures c.left <= x < c.End() && OutAddr(c, x, y) != Addr(c.w, c.h, x, y)
  {
    hide Addr, Tile4x2Read;
    LastStartBounds(c);
    var j := c.LastStart();
    var m := c.left / 64;
    assert c.left == 64 * m + c.left % 64 && (c.left + 64) / 64 * 64 == 64 * (m + 1);
    if c.End() > 16384 && 16384 <= j {
      x := 16384;
      if x < j {
        Parts(x, 64, 256, 0);
      }
      assert StartOf(c, x) == x;
      Tile4x2ReadIsAddr(c.w, c.h, x, y);
    } else {
      x := j + 64;
      assert StartOf(c, x) == j;
      Tile4x2ReadIsAddr(c.w, c.h, j, y);
      OffsetInBlock(c.w, c.h, j, y);
    }
  }

  lemma OffsetInBlock(w: nat, h: nat, x: nat, y: nat)
    requires x % 64 == 0
    ensures Addr(w, h, x + 64, y) != Addr(w, h, x, y) + 64
  {
    hide Block;
    assert (x + 64) % 64 == 0;
  }

  lemma {:induction false} OutputIsWindow(c: Crop, src: seq<byte>, y: nat)
    requires c.Valid() && c.Readable(src) && c.top <= y <= c.Last() && CutsCleanly(c)
    ensures TiledSize(c.w, c.h) <= |src|
    ensures Output(c, src, y) == Window(src, c.w, c.h, c.left, c.End(), c.top, y)
    decreases y
  {
    hide Addr, OutAddr, TiledSize, CutsCleanly;
    if y > c.top {
      OutputIsWindow(c, src, y - 1);
      forall x {:trigger OutAddr(c, x, y - 1)} | c.left <= x < c.End()
        ensures OutAddr(c, x, y - 1) == Addr(c.w, c.h, x, y - 1)
      {
        CleanAddresses(c, x, y - 1);
      }
      OutRowIsRow(c, src, y - 1);
    }
  }

  /** A plane that shows the wrong byte at some column of the window. */
  lemma WrongPixel(c: Crop) returns (src: seq<byte>, x: nat, y: nat)
    requires c.Valid() && !CutsCleanly(c) && c.Height() > 0
    ensures c.Readable(src) && c.left <= x < c.End() && c.top <= y < c.Last()
    ensures OutRow(c, src, y)[x - c.left] != Pixel(src, c.w, c.h, x, y)
  {
    hide Addr, OutAddr, TiledSize, CutsCleanly, Cols, Rows, PixelX, PixelY, Crop.LastStart;
    x, y := UncleanAddress(c);
    PlaneFits(c.w, c.h);
    AddrThenInverse(c.w, c.h, x, y);
    var b := Addr(c.w, c.h, x, y);
    src := seq(TiledSize(c.w, c.h) + 64, k => if k == b then 1 else 0);
    OutAddrReadable(c, src, x, y);
    assert OutRow(c, src, y)[x - c.left] == OutByte(c, src, c.left + (x - c.left), y);
  }

  /** csc_tiled_to_linear_crop cuts out the window of every plane exactly when it CutsCleanly. */
  lemma CropIsExact(c: Crop)
    requires c.Valid() && c.Height() > 0
    ensures CutsCleanly(c) <==>
            forall src: seq<byte> | c.Readable(src) ::
              Output(c, src, c.Last()) == Window(src, c.w, c.h, c.left, c.End(), c.top, c.Last())
  {
    hide Addr, Row, OutRow, TiledSize, Output, Window, Pixel, CutsCleanly;
    if CutsCleanly(c) {
      forall src: seq<byte> | c.Readable(src)
        ensures Output(c, src, c.Last()) == Window(src, c.w, c.h, c.left, c.End(), c.top, c.Last())
      {
        OutputIsWindow(c, src, c.Last());
      }
    } else {
      var src, x, y := WrongPixel(c);
      OutputAt(c, src, c.Last(), y, x - c.left);
      WindowAt(src, c.w, c.h, c.left, c.End(), c.top, c.Last(), x, y);
    }
  }

  /** It writes behind the window exactly when a narrow window has an odd width. */
  lemma Overhang(c: Crop, src: seq<byte>)
    requires c.Valid() && c.Readable(src) && c.Height() > 0
    ensures |Tail(c, src)| == if c.Narrow() && c.Width() % 2 == 1 then 1 else 0
  {}

  /** Three crops it does not cut out: one from an odd column across a block, one beyond column 16384, and one that
      leaves the last strip; and one it does. */
  lemma CropExamples()
    ensures !CutsCleanly(Crop(130, 2, 63, 0, 65, 0))
    ensures !CutsCleanly(Crop(16640, 1, 16448, 0, 64, 0))
    ensures !CutsCleanly(Crop(640, 32, 32, 0, 368, 0))
    ensures CutsCleanly(Crop(640, 32, 63, 0, 576, 0))
  {}

  /** csc_tiled_to_linear_y and csc_tiled_to_linear_uv: the uncropped plane. */
  method TiledToLinear(dst: array<byte>, src: array<byte>, w: nat, h: nat)
    requires dst != src && (w < 256 ==> h <= 16384)
    requires TiledSize(w, h) <= src.Length && w * h + (if w < 64 && h > 0 then w % 2 else 0) <= dst.Length
    modifies dst
    ensures var n := w * h + if w < 64 && h > 0 then w % 2 else 0;
            0 <= w * h && dst[..w * h] == Window(src[..], w, h, 0, w, 0, h) && dst[n..] == old(dst[n..])
  {
    hide Addr, Row, OutRow, OutByte, TiledSize, Output, Window;
    MulMono(0, w, h);
    ghost var c := Crop(w, h, 0, 0, 0, 0);
    TiledToLinearCrop(dst, src, w, h, 0, 0, 0, 0);
    OutputIsWindow(c, src[..], h);
  }
}
