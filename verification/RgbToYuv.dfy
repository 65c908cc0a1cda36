/** RGB to YUV 4:2:0 (csc_BGRA8888_to_YUV420P, csc_RGBA8888_to_YUV420P and the two SP forms of
    libswconverter/swconvertor.c): unsigned 32-bit arithmetic that wraps, and the exact values it computes. */
module RgbToYuv {
  import opened Bytes

  datatype Order = BGRA | RGBA

  datatype Pixel = Pixel(r: byte, g: byte, b: byte)

  // ----- Exact values -----------------------------------------------------

  function Weighted(p: Pixel, r: int, g: int, b: int): int {
    r * p.r as int + g * p.g as int + b * p.b as int
  }

  datatype Channel = Y | Cb | Cr

  /** The weighted sum of a channel, in units of 1/256 and with the rounding term. */
  function Sum(ch: Channel, p: Pixel): int {
    match ch
    case Y => Weighted(p, 66, 129, 25) + 128
    case Cb => Weighted(p, -38, -74, 112) + 128
    case Cr => Weighted(p, 112, -94, -18) + 128
  }

  /** The value of no signal. */
  function Zero(ch: Channel): nat {
    if ch == Y then 16 else 128
  }

  /** The sample: the sum rounded down to a whole step, above the channel's zero level. */
  function Sample(ch: Channel, p: Pixel): (s: byte)
    ensures ch == Y ==> 16 <= s <= 235
    ensures ch != Y ==> 16 <= s <= 240
  {
    (Sum(ch, p) / 256 + Zero(ch)) as byte
  }

  /** Every sample is within one step of the value that Recommendation ITU-R BT.601 defines: luma 0.299 R + 0.587 G +
      0.114 B over 219 steps from 16, colour differences (B - luma) / 1.772 and (R - luma) / 1.402 over 224 steps around
      128. Grey has neutral colour differences, black and white have luma 16 and 235. */
  lemma SampleIsNearBt601(p: Pixel)
    ensures var luma := Weighted(p, 299, 587, 114);
            && -255_000 < 255_000 * (Sample(Y, p) as int - 16) - 219 * luma < 255_000
            && -451_860 < 451_860 * (Sample(Cb, p) as int - 128) - 224 * (1000 * p.b as int - luma) < 451_860
            && -357_510 < 357_510 * (Sample(Cr, p) as int - 128) - 224 * (1000 * p.r as int - luma) < 357_510
    ensures p.r == p.g == p.b ==> Sample(Cb, p) == 128 && Sample(Cr, p) == 128
    ensures Sample(Y, Pixel(0, 0, 0)) == 16 && Sample(Y, Pixel(255, 255, 255)) == 235
  {
    FloorBounds(Sum(Y, p));
    FloorBounds(Sum(Cb, p));
    FloorBounds(Sum(Cr, p));
  }

  lemma FloorBounds(x: int)
    ensures 256 * (x / 256) <= x < 256 * (x / 256) + 256
  {}

  // ----- Wrapping arithmetic ----------------------------------------------

  const WORD: int := 0x1_0000_0000

  /** An unsigned int. */
  type u32 = x: nat | x < 0x1_0000_0000

  function Wrap(x: int): u32 {
    x % WORD
  }

  /** Wrapping sums and differences of wrapped products are the wrapped exact sum. */
  lemma WrapAdd(x: int, y: int)
    ensures Wrap(Wrap(x) + Wrap(y)) == Wrap(x + y) && Wrap(Wrap(x) - Wrap(y)) == Wrap(x - y)
  {
    var (a, b) := (x / WORD, y / WORD);
    Congruent(Wrap(x) + Wrap(y), x + y, a + b);
    Congruent(Wrap(x) - Wrap(y), x - y, a - b);
  }

  lemma Congruent(u: int, v: int, k: int)
    requires v == u + k * WORD
    ensures Wrap(u) == Wrap(v)
  {}

  /** A logical shift of the wrapped sum keeps the low byte of its floor: the borrowed 2^24 vanishes in the cast. */
  lemma LogicalShift(x: int, zero: nat)
    requires -0x1_0000 < x < 0x1_0000 && zero < 256
    ensures Wrap(Wrap(x) / 256 + zero) % 256 == (x / 256 + zero) % 256
  {
    if x < 0 {
      assert Wrap(x) == x + WORD;
      assert (x + WORD) / 256 == x / 256 + 0x100_0000;
    }
  }

  lemma WrapMul(x: int, r: nat)
    ensures Wrap(Wrap(x) * r) == Wrap(x * r)
  {
    var k := x / WORD;
    assert x * r == Wrap(x) * r + k * r * WORD by {
      assert x == Wrap(x) + k * WORD;
      Distribute(Wrap(x), k, r);
    }
    Congruent(Wrap(x) * r, x * r, k * r);
  }

  lemma Distribute(w: int, k: int, r: int)
    ensures (w + k * WORD) * r == w * r + k * r * WORD
  {}

  /** Y, U and V of one pixel: every operation is on unsigned ints, and the result is cut to its low byte. */
  method LumaOf(ghost p: Pixel, r: u32, g: u32, b: u32) returns (s: byte)
    requires r == p.r as int && g == p.g as int && b == p.b as int
    ensures s == Sample(Y, p)
  {
    SumBounds(p);
    hide Wrap;
    LogicalShift(Sum(Y, p), 16);
    var t := Wrap(66 * r + 129 * g + 25 * b + 128);
    assert t == Wrap(Sum(Y, p));
    t := t / 256;
    t := Wrap(t + 16);
    s := (t % 256) as byte;
  }

  method CbOf(ghost p: Pixel, r: u32, g: u32, b: u32) returns (s: byte)
    requires r == p.r as int && g == p.g as int && b == p.b as int
    ensures s == Sample(Cb, p)
  {
    SumBounds(p);
    hide Wrap;
    WrapMul(-38, r);
    WrapAdd(-38 * r, 74 * g);
    WrapAdd(-38 * r - 74 * g, 112 * b);
    WrapAdd(-38 * r - 74 * g + 112 * b, 128);
    LogicalShift(Sum(Cb, p), 128);
    WrapSmall(128);
    var t := Wrap(Wrap(Wrap(Wrap(Wrap(-38) * r) - Wrap(74 * g)) + Wrap(112 * b)) + 128);
    assert t == Wrap(Sum(Cb, p));
    t := t / 256;
    t := Wrap(t + 128);
    s := (t % 256) as byte;
  }

  method CrOf(ghost p: Pixel, r: u32, g: u32, b: u32) returns (s: byte)
    requires r == p.r as int && g == p.g as int && b == p.b as int
    ensures s == Sample(Cr, p)
  {
    SumBounds(p);
    hide Wrap;
    WrapAdd(112 * r, 94 * g);
    WrapAdd(112 * r - 94 * g, 18 * b);
    WrapAdd(112 * r - 94 * g - 18 * b, 128);
    LogicalShift(Sum(Cr, p), 128);
    WrapSmall(128);
    var t := Wrap(Wrap(Wrap(Wrap(112 * r) - Wrap(94 * g)) - Wrap(18 * b)) + 128);
    assert t == Wrap(Sum(Cr, p));
    t := t / 256;
    t := Wrap(t + 128);
    s := (t % 256) as byte;
  }

  lemma SumBounds(p: Pixel)
    ensures forall ch: Channel :: -0x1_0000 < Sum(ch, p) < 0x1_0000 && 0 <= Sum(ch, p) / 256 + Zero(ch) < 256
  {}

  lemma WrapSmall(x: u32)
    ensures Wrap(x) == x
  {}

  // ----- Pixels in memory -------------------------------------------------

  predicate InPicture(src: seq<byte>, k: nat) {
    4 * k + 4 <= |src|
  }

  /** Pixel k of a picture of four-byte pixels: blue first or red first, alpha last. */
  function PixelAt(order: Order, src: seq<byte>, k: nat): Pixel
    requires InPicture(src, k)
  {
    if order == BGRA then Pixel(src[4 * k + 2], src[4 * k + 1], src[4 * k])
    else Pixel(src[4 * k], src[4 * k + 1], src[4 * k + 2])
  }

  /** Loads the little-endian word of a pixel and masks its fields out. */
  method LoadPixel(order: Order, src: array<byte>, k: nat) returns (r: u32, g: u32, b: u32)
    requires InPicture(src[..], k)
    ensures order == BGRA ==> b == src[4 * k] as int && g == src[4 * k + 1] as int && r == src[4 * k + 2] as int
    ensures order == RGBA ==> r == src[4 * k] as int && g == src[4 * k + 1] as int && b == src[4 * k + 2] as int
    ensures var p := PixelAt(order, src[..], k); r == p.r as int && g == p.g as int && b == p.b as int
  {
    var b0, b1, b2, b3 := src[4 * k] as int, src[4 * k + 1] as int, src[4 * k + 2] as int, src[4 * k + 3] as int;
    var tmp := b0 + 0x100 * b1 + 0x1_0000 * b2 + 0x100_0000 * b3;
    Fields(tmp, b0, b1, b2, b3);
    var high, middle, low := tmp / 0x1_0000 % 0x100, tmp / 0x100 % 0x100, tmp % 0x100;
    if order == BGRA {
      r, g, b := high, middle, low;
    } else {
      b, g, r := high, middle, low;
    }
  }

  lemma Fields(word: nat, b0: nat, b1: nat, b2: nat, b3: nat)
    requires b0 < 256 && b1 < 256 && b2 < 256 && b3 < 256
    requires word == b0 + 0x100 * b1 + 0x1_0000 * b2 + 0x100_0000 * b3
    ensures word / 0x1_0000 % 0x100 == b2 && word / 0x100 % 0x100 == b1 && word % 0x100 == b0
  {
    Parts(word, 0x100, b1 + 0x100 * b2 + 0x1_0000 * b3, b0);
    Parts(b1 + 0x100 * b2 + 0x1_0000 * b3, 0x100, b2 + 0x100 * b3, b1);
    Parts(word, 0x1_0000, b2 + 0x100 * b3, b0 + 0x100 * b1);
    Parts(b2 + 0x100 * b3, 0x100, b3, b2);
  }

  // ----- Planes -----------------------------------------------------------

  /** Pixels from one sample to the next. */
  function Pitch(ch: Channel): (n: nat)
    ensures n > 0
  {
    if ch == Y then 1 else 2
  }

  /** Samples for so many pixels: one for every started pitch. */
  function Samples(ch: Channel, pixels: nat): nat {
    if ch == Y then pixels else (pixels + 1) / 2
  }

  /** A channel's samples among the first n pixels from pixel `from` on. */
  function Row(ch: Channel, order: Order, src: seq<byte>, from: nat, n: nat): (row: seq<byte>)
    requires 4 * (from + n) <= |src|
    ensures |row| == Samples(ch, n)
  {
    if n == 0 then []
    else Row(ch, order, src, from, n - 1) +
         if (n - 1) % Pitch(ch) == 0 then [Sample(ch, PixelAt(order, src, from + n - 1))] else []
  }

  /** A channel's samples among the first rows of a picture of width w. */
  function Plane(ch: Channel, order: Order, src: seq<byte>, w: nat, rows: nat): (plane: seq<byte>)
    requires 4 * (rows * w) <= |src|
    ensures |plane| == Samples(ch, rows) * Samples(ch, w)
  {
    if rows == 0 then []
    else
      RowsUp(rows, w, Samples(ch, rows - 1), Samples(ch, w));
      Plane(ch, order, src, w, rows - 1) +
      if (rows - 1) % Pitch(ch) == 0 then Row(ch, order, src, (rows - 1) * w, w) else []
  }

  lemma RowsUp(rows: nat, w: nat, r: nat, n: nat)
    requires rows > 0
    ensures (rows - 1) * w + w == rows * w && (rows - 1) * w >= 0
    ensures (r + 1) * n == r * n + n
  {}

  lemma {:induction false} RowAt(ch: Channel, order: Order, src: seq<byte>, from: nat, n: nat, x: nat)
    requires 4 * (from + n) <= |src| && x < Samples(ch, n)
    ensures Pitch(ch) * x < n
    ensures Row(ch, order, src, from, n)[x] == Sample(ch, PixelAt(order, src, from + Pitch(ch) * x))
  {
    hide Sample, PixelAt;
    if x < Samples(ch, n - 1) {
      RowAt(ch, order, src, from, n - 1, x);
    } else {
      assert Pitch(ch) * x == n - 1;
    }
  }

  lemma LastRowAt(ch: Channel, order: Order, src: seq<byte>, w: nat, rows: nat, x: nat)
    requires 0 < rows && 4 * (rows * w) <= |src| && x < Samples(ch, w) && (rows - 1) % Pitch(ch) == 0
    ensures Pitch(ch) * x < w && 0 <= (rows - 1) * w && InPicture(src, (rows - 1) * w + Pitch(ch) * x)
    ensures 0 <= Samples(ch, rows - 1) * Samples(ch, w) + x < |Plane(ch, order, src, w, rows)|
    ensures Plane(ch, order, src, w, rows)[Samples(ch, rows - 1) * Samples(ch, w) + x] ==
            Sample(ch, PixelAt(order, src, (rows - 1) * w + Pitch(ch) * x))
  {
    hide Sample, PixelAt, Row, Pitch, Samples;
    RowsUp(rows, w, Samples(ch, rows - 1), Samples(ch, w));
    RowAt(ch, order, src, (rows - 1) * w, w, x);
  }

  /** Sample (x, y) of a plane comes from pixel (Pitch x, Pitch y) of the picture. */
  lemma PlaneAt(ch: Channel, order: Order, src: seq<byte>, w: nat, rows: nat, x: nat, y: nat)
    requires 4 * (rows * w) <= |src| && x < Samples(ch, w) && y < Samples(ch, rows)
    ensures Pitch(ch) * y < rows && Pitch(ch) * x < w
    ensures y * Samples(ch, w) + x < Samples(ch, rows) * Samples(ch, w)
    ensures InPicture(src, Pitch(ch) * y * w + Pitch(ch) * x)
    ensures Plane(ch, order, src, w, rows)[y * Samples(ch, w) + x] ==
            Sample(ch, PixelAt(order, src, Pitch(ch) * y * w + Pitch(ch) * x))
  {
    hide Sample, PixelAt, Row, Plane, Samples;
    PlaneRowAt(ch, order, src, w, rows, x, y, Pitch(ch) * y);
  }

  lemma {:induction false} PlaneRowAt(ch: Channel, order: Order, src: seq<byte>, w: nat, rows: nat, x: nat, y: nat, row: nat)
    requires 4 * (rows * w) <= |src| && x < Samples(ch, w) && y < Samples(ch, rows) && row == Pitch(ch) * y
    ensures row < rows && Pitch(ch) * x < w && 0 <= row * w && InPicture(src, row * w + Pitch(ch) * x)
    ensures 0 <= y * Samples(ch, w) + x < |Plane(ch, order, src, w, rows)|
    ensures Plane(ch, order, src, w, rows)[y * Samples(ch, w) + x] == Sample(ch, PixelAt(order, src, row * w + Pitch(ch) * x))
  {
    hide Sample, PixelAt, Row, Plane, Samples, Pitch;
    LastSample(ch, rows, y);
    RowsUp(rows, w, 0, 0);
    if y < Samples(ch, rows - 1) {
      PlaneRowAt(ch, order, src, w, rows - 1, x, y, row);
      EarlierRowAt(ch, order, src, w, rows, y * Samples(ch, w) + x);
    } else {
      LastRowAt(ch, order, src, w, rows, x);
    }
  }

  lemma LastSample(ch: Channel, rows: nat, y: nat)
    requires y < Samples(ch, rows)
    ensures rows > 0 && Pitch(ch) * y < rows
    ensures y >= Samples(ch, rows - 1) ==>
              (rows - 1) % Pitch(ch) == 0 && Pitch(ch) * y == rows - 1 && y == Samples(ch, rows - 1)
  {}

  lemma EarlierRowAt(ch: Channel, order: Order, src: seq<byte>, w: nat, rows: nat, k: nat)
    requires 0 < rows && 0 <= (rows - 1) * w && 4 * ((rows - 1) * w) <= |src| && 4 * (rows * w) <= |src|
    requires k < |Plane(ch, order, src, w, rows - 1)|
    ensures k < |Plane(ch, order, src, w, rows)| && Plane(ch, order, src, w, rows)[k] == Plane(ch, order, src, w, rows - 1)[k]
  {
    hide Row, Samples, Pitch;
    RowsUp(rows, w, Samples(ch, rows - 1), Samples(ch, w));
  }

  /** The luma bytes of a picture: BGRA pixels have blue in their lowest byte, RGBA pixels have red there. */
  lemma LumaBytes(order: Order, src: seq<byte>, w: nat, h: nat, x: nat, y: nat)
    requires 4 * (h * w) <= |src| && x < w && y < h
    ensures 0 <= y * w + x < |Plane(Y, order, src, w, h)| && 4 * (y * w + x) + 4 <= |src|
    ensures var k := y * w + x;
            var (low, g, high) := (src[4 * k] as int, src[4 * k + 1] as int, src[4 * k + 2] as int);
            && (order == BGRA ==> Plane(Y, order, src, w, h)[k] as int == (66 * high + 129 * g + 25 * low + 128) / 256 + 16)
            && (order == RGBA ==> Plane(Y, order, src, w, h)[k] as int == (66 * low + 129 * g + 25 * high + 128) / 256 + 16)
  {
    hide Plane, Sample;
    PlaneAt(Y, order, src, w, h, x, y);
    hide PixelAt;
    PixelBytes(order, src, y * w + x);
    SampleIs(PixelAt(order, src, y * w + x));
  }

  /** The colour bytes: one for each two by two pixels, from the upper left of them. */
  lemma ColourBytes(order: Order, src: seq<byte>, w: nat, h: nat, x: nat, y: nat)
    requires 4 * (h * w) <= |src| && x < (w + 1) / 2 && y < (h + 1) / 2
    ensures 0 <= y * ((w + 1) / 2) + x < |Plane(Cb, order, src, w, h)| == |Plane(Cr, order, src, w, h)|
    ensures 0 <= 2 * y * w && 4 * (2 * y * w + 2 * x) + 4 <= |src|
    ensures var (k, q) := (2 * y * w + 2 * x, y * ((w + 1) / 2) + x);
            var (low, g, high) := (src[4 * k] as int, src[4 * k + 1] as int, src[4 * k + 2] as int);
            var (cb, cr) := (Plane(Cb, order, src, w, h)[q] as int, Plane(Cr, order, src, w, h)[q] as int);
            && (order == BGRA ==> cb == (-38 * high - 74 * g + 112 * low + 128) / 256 + 128
                                  && cr == (112 * high - 94 * g - 18 * low + 128) / 256 + 128)
            && (order == RGBA ==> cb == (-38 * low - 74 * g + 112 * high + 128) / 256 + 128
                                  && cr == (112 * low - 94 * g - 18 * high + 128) / 256 + 128)
  {
    hide Plane, Sample, PixelAt, Samples, Pitch;
    ColourAt(order, src, w, h, x, y);
    PixelBytes(order, src, 2 * y * w + 2 * x);
    SampleIs(PixelAt(order, src, 2 * y * w + 2 * x));
  }

  lemma ColourAt(order: Order, src: seq<byte>, w: nat, h: nat, x: nat, y: nat)
    requires 4 * (h * w) <= |src| && x < (w + 1) / 2 && y < (h + 1) / 2
    ensures 0 <= y * ((w + 1) / 2) + x < |Plane(Cb, order, src, w, h)| == |Plane(Cr, order, src, w, h)|
    ensures 0 <= 2 * y * w && InPicture(src, 2 * y * w + 2 * x)
    ensures var (k, q) := (2 * y * w + 2 * x, y * ((w + 1) / 2) + x);
            && Plane(Cb, order, src, w, h)[q] == Sample(Cb, PixelAt(order, src, k))
            && Plane(Cr, order, src, w, h)[q] == Sample(Cr, PixelAt(order, src, k))
  {
    hide Plane, Sample, PixelAt;
    MulMono(0, 2 * y, w);
    MulMono(0, y, (w + 1) / 2);
    PlaneAt(Cb, order, src, w, h, x, y);
    PlaneAt(Cr, order, src, w, h, x, y);
  }

  lemma PixelBytes(order: Order, src: seq<byte>, k: nat)
    requires InPicture(src, k)
    ensures var (p, low, high) := (PixelAt(order, src, k), src[4 * k], src[4 * k + 2]);
            && p.g == src[4 * k + 1] && (order == BGRA ==> p.b == low && p.r == high) && (order == RGBA ==> p.r == low && p.b == high)
  {}

  lemma SampleIs(p: Pixel)
    ensures var (r, g, b) := (p.r as int, p.g as int, p.b as int);
            && Sample(Y, p) as int == (66 * r + 129 * g + 25 * b + 128) / 256 + 16
            && Sample(Cb, p) as int == (-38 * r - 74 * g + 112 * b + 128) / 256 + 128
            && Sample(Cr, p) as int == (112 * r - 94 * g - 18 * b + 128) / 256 + 128
  {}

  // ----- The converters ---------------------------------------------------

  /** What a converter leaves in a buffer: the new bytes in front, the old ones behind. */
  predicate Filled(before: seq<byte>, after: seq<byte>, data: seq<byte>) {
    |data| <= |before| == |after| && after[..|data|] == data && after[|data|..] == before[|data|..]
  }

  lemma FilledByte(before: seq<byte>, after: seq<byte>, data: seq<byte>, k: nat)
    requires Filled(before, after, data)
    ensures |after| == |before| && (k < |after| ==> after[k] == if k < |data| then data[k] else before[k])
  {
    if k < |data| {
      assert after[..|data|][k] == data[k];
    } else if k < |after| {
      assert after[|data|..][k - |data|] == before[|data|..][k - |data|];
    }
  }

  /** Writes one more byte behind a filled part. */
  method Append(dst: array<byte>, index: nat, s: byte, ghost before: seq<byte>, ghost data: seq<byte>)
    requires index == |data| < dst.Length && Filled(before, dst[..], data)
    modifies dst
    ensures Filled(before, dst[..], data + [s])
  {
    ghost var was := dst[..];
    dst[index] := s;
    assert dst[..index + 1] == was[..index] + [s];
    assert was[index + 1..] == was[index..][1..] && before[index + 1..] == before[index..][1..];
  }

  /** There is room for one more sample. */
  lemma Room(ch: Channel, w: nat, h: nat, j: nat, i: nat)
    requires j < h && i < w && j % Pitch(ch) == 0 && i % Pitch(ch) == 0
    ensures Samples(ch, j) * Samples(ch, w) + Samples(ch, i) < Samples(ch, h) * Samples(ch, w)
  {
    var sj, sh, si, sw := Samples(ch, j), Samples(ch, h), Samples(ch, i), Samples(ch, w);
    assert sj < sh && si < sw;
    RoomBelow(sj, sh, si, sw);
  }

  lemma RoomBelow(j: nat, h: nat, i: nat, w: nat)
    requires j < h && i < w
    ensures j * w + i < h * w && (j + 1) * w <= h * w
  {
    MulMono(j + 1, h, w);
    assert (j + 1) * w == j * w + w;
  }

  /** The rows above row j, and the samples among the first i pixels of row j. */
  function Upto(ch: Channel, order: Order, src: seq<byte>, w: nat, j: nat, i: nat): (s: seq<byte>)
    requires i <= w && 4 * ((j + 1) * w) <= |src|
  {
    RowsUp(j + 1, w, 0, 0);
    Plane(ch, order, src, w, j) + if j % Pitch(ch) == 0 then Row(ch, order, src, j * w, i) else []
  }

  lemma UptoStep(ch: Channel, order: Order, src: seq<byte>, w: nat, j: nat, i: nat)
    requires i < w && 4 * ((j + 1) * w) <= |src|
    ensures 4 * (j * w + i + 1) <= |src|
    ensures Upto(ch, order, src, w, j, i + 1) == Upto(ch, order, src, w, j, i) +
            if j % Pitch(ch) == 0 && i % Pitch(ch) == 0 then [Sample(ch, PixelAt(order, src, j * w + i))] else []
  {
    hide Sample, PixelAt, Plane;
    RowsUp(j + 1, w, 0, 0);
  }

  lemma UptoEnds(ch: Channel, order: Order, src: seq<byte>, w: nat, j: nat)
    requires 4 * ((j + 1) * w) <= |src|
    ensures 4 * (j * w) <= |src|
    ensures Upto(ch, order, src, w, j, 0) == Plane(ch, order, src, w, j)
    ensures Upto(ch, order, src, w, j, w) == Plane(ch, order, src, w, j + 1)
  {
    hide Sample, PixelAt;
    RowsUp(j + 1, w, 0, 0);
  }

  lemma UptoRoom(ch: Channel, order: Order, src: seq<byte>, w: nat, h: nat, j: nat, i: nat)
    requires j < h && i < w && 4 * (h * w) <= |src| && j % Pitch(ch) == 0 && i % Pitch(ch) == 0
    ensures 4 * ((j + 1) * w) <= |src|
    ensures |Upto(ch, order, src, w, j, i)| < Samples(ch, h) * Samples(ch, w)
    ensures 4 * (j * w + i + 1) <= |src|
  {
    hide Plane, Row;
    Room(ch, w, h, j, i);
    MulMono(j + 1, h, w);
    RowsUp(j + 1, w, 0, 0);
  }

  /** One channel of a buffer is filled up to pixel (i, j), and the index says how far that is. */
  ghost predicate At(before: seq<byte>, now: seq<byte>, index: nat, ch: Channel, order: Order, src: seq<byte>,
                     w: nat, j: nat, i: nat)
    requires i <= w && 4 * ((j + 1) * w) <= |src|
  {
    index == |Upto(ch, order, src, w, j, i)| && Filled(before, now, Upto(ch, order, src, w, j, i))
  }

  /** The next pixel has no sample for this channel. */
  lemma Skip(before: seq<byte>, now: seq<byte>, index: nat, ch: Channel, order: Order, src: seq<byte>,
             w: nat, j: nat, i: nat)
    requires i < w && 4 * ((j + 1) * w) <= |src| && !(j % Pitch(ch) == 0 && i % Pitch(ch) == 0)
    requires At(before, now, index, ch, order, src, w, j, i)
    ensures At(before, now, index, ch, order, src, w, j, i + 1)
  {
    hide Sample, PixelAt, Upto, Filled;
    UptoStep(ch, order, src, w, j, i);
    assert Upto(ch, order, src, w, j, i + 1) == Upto(ch, order, src, w, j, i);
  }

  /** Stores the next pixel's sample. */
  method Put(dst: array<byte>, index: nat, s: byte, ghost before: seq<byte>, ghost ch: Channel, ghost order: Order,
             ghost src: seq<byte>, ghost w: nat, ghost h: nat, ghost j: nat, ghost i: nat)
    requires j < h && i < w && 4 * (h * w) <= |src| && j % Pitch(ch) == 0 && i % Pitch(ch) == 0
    requires 4 * ((j + 1) * w) <= |src| && 4 * (j * w + i + 1) <= |src|
    requires s == Sample(ch, PixelAt(order, src, j * w + i))
    requires Samples(ch, h) * Samples(ch, w) <= dst.Length && At(before, dst[..], index, ch, order, src, w, j, i)
    modifies dst
    ensures At(before, dst[..], index + 1, ch, order, src, w, j, i + 1)
  {
    hide Sample, PixelAt, Upto, Filled, Samples;
    UptoStep(ch, order, src, w, j, i);
    UptoRoom(ch, order, src, w, h, j, i);
    Append(dst, index, s, before, Upto(ch, order, src, w, j, i));
  }

  /** csc_BGRA8888_to_YUV420P and csc_RGBA8888_to_YUV420P, for pictures of any size. */
  method ToPlanar(order: Order, yDst: array<byte>, uDst: array<byte>, vDst: array<byte>, src: array<byte>, w: nat, h: nat)
    requires yDst != uDst && yDst != vDst && uDst != vDst && src != yDst && src != uDst && src != vDst
    requires 4 * (h * w) <= src.Length && Samples(Y, h) * Samples(Y, w) <= yDst.Length
    requires Samples(Cb, h) * Samples(Cb, w) <= uDst.Length && Samples(Cr, h) * Samples(Cr, w) <= vDst.Length
    modifies yDst, uDst, vDst
    ensures Filled(old(yDst[..]), yDst[..], Plane(Y, order, src[..], w, h))
    ensures Filled(old(uDst[..]), uDst[..], Plane(Cb, order, src[..], w, h))
    ensures Filled(old(vDst[..]), vDst[..], Plane(Cr, order, src[..], w, h))
  {
    hide Plane, Upto, Sample, PixelAt, Samples, Filled, Sum, At;
    ghost var (y0, u0, v0) := (yDst[..], uDst[..], vDst[..]);
    ghost var picture := src[..];
    var yIndex, uIndex, vIndex := 0, 0, 0;
    Nothing(Y, order, picture, w, y0);
    Nothing(Cb, order, picture, w, u0);
    Nothing(Cr, order, picture, w, v0);
    for j := 0 to h
      invariant src[..] == picture && 4 * (j * w) <= |picture|
      invariant yIndex == |Plane(Y, order, picture, w, j)| && Filled(y0, yDst[..], Plane(Y, order, picture, w, j))
      invariant uIndex == |Plane(Cb, order, picture, w, j)| && Filled(u0, uDst[..], Plane(Cb, order, picture, w, j))
      invariant vIndex == |Plane(Cr, order, picture, w, j)| && Filled(v0, vDst[..], Plane(Cr, order, picture, w, j))
    {
      MulMono(j + 1, h, w);
      RowBegins(y0, yDst[..], yIndex, Y, order, picture, w, j);
      RowBegins(u0, uDst[..], uIndex, Cb, order, picture, w, j);
      RowBegins(v0, vDst[..], vIndex, Cr, order, picture, w, j);
      yIndex, uIndex, vIndex :=
        RowToPlanar(order, yDst, uDst, vDst, src, w, h, j, yIndex, uIndex, vIndex, y0, u0, v0);
      RowEnds(y0, yDst[..], yIndex, Y, order, picture, w, j);
      RowEnds(u0, uDst[..], uIndex, Cb, order, picture, w, j);
      RowEnds(v0, vDst[..], vIndex, Cr, order, picture, w, j);
    }
  }

  /** The inner loop. */
  method RowToPlanar(order: Order, yDst: array<byte>, uDst: array<byte>, vDst: array<byte>, src: array<byte>,
                     w: nat, h: nat, j: nat, y: nat, u: nat, v: nat,
                     ghost y0: seq<byte>, ghost u0: seq<byte>, ghost v0: seq<byte>)
    returns (yIndex: nat, uIndex: nat, vIndex: nat)
    requires yDst != uDst && yDst != vDst && uDst != vDst && src != yDst && src != uDst && src != vDst
    requires 4 * (h * w) <= src.Length && Samples(Y, h) * Samples(Y, w) <= yDst.Length
    requires Samples(Cb, h) * Samples(Cb, w) <= uDst.Length && Samples(Cr, h) * Samples(Cr, w) <= vDst.Length
    requires j < h && 4 * ((j + 1) * w) <= src.Length
    requires At(y0, yDst[..], y, Y, order, src[..], w, j, 0)
    requires At(u0, uDst[..], u, Cb, order, src[..], w, j, 0) && At(v0, vDst[..], v, Cr, order, src[..], w, j, 0)
    modifies yDst, uDst, vDst
    ensures At(y0, yDst[..], yIndex, Y, order, src[..], w, j, w)
    ensures At(u0, uDst[..], uIndex, Cb, order, src[..], w, j, w)
    ensures At(v0, vDst[..], vIndex, Cr, order, src[..], w, j, w)
  {
    hide Plane, Upto, Sample, PixelAt, Samples, Filled, Sum, At;
    ghost var picture := src[..];
    yIndex, uIndex, vIndex := y, u, v;
    for i := 0 to w
      invariant src[..] == picture
      invariant At(y0, yDst[..], yIndex, Y, order, picture, w, j, i)
      invariant At(u0, uDst[..], uIndex, Cb, order, picture, w, j, i)
      invariant At(v0, vDst[..], vIndex, Cr, order, picture, w, j, i)
    {
      UptoStep(Y, order, picture, w, j, i);
      ghost var p := PixelAt(order, picture, j * w + i);
      var r, g, b := LoadPixel(order, src, j * w + i);
      var luma := LumaOf(p, r, g, b);
      Put(yDst, yIndex, luma, y0, Y, order, picture, w, h, j, i);
      yIndex := yIndex + 1;
      if j % 2 == 0 && i % 2 == 0 {
        var cb := CbOf(p, r, g, b);
        var cr := CrOf(p, r, g, b);
        Put(uDst, uIndex, cb, u0, Cb, order, picture, w, h, j, i);
        Put(vDst, vIndex, cr, v0, Cr, order, picture, w, h, j, i);
        uIndex := uIndex + 1;
        vIndex := vIndex + 1;
      } else {
        Skip(u0, uDst[..], uIndex, Cb, order, picture, w, j, i);
        Skip(v0, vDst[..], vIndex, Cr, order, picture, w, j, i);
      }
    }
  }

  lemma Nothing(ch: Channel, order: Order, src: seq<byte>, w: nat, bytes: seq<byte>)
    ensures Plane(ch, order, src, w, 0) == [] && Filled(bytes, bytes, [])
  {}

  lemma RowBegins(before: seq<byte>, now: seq<byte>, index: nat, ch: Channel, order: Order, src: seq<byte>,
                  w: nat, j: nat)
    requires 4 * ((j + 1) * w) <= |src| && 4 * (j * w) <= |src|
    requires index == |Plane(ch, order, src, w, j)| && Filled(before, now, Plane(ch, order, src, w, j))
    ensures At(before, now, index, ch, order, src, w, j, 0)
  {
    hide Plane, Upto, Filled;
    UptoEnds(ch, order, src, w, j);
  }

  lemma RowEnds(before: seq<byte>, now: seq<byte>, index: nat, ch: Channel, order: Order, src: seq<byte>,
                w: nat, j: nat)
    requires 4 * ((j + 1) * w) <= |src| && At(before, now, index, ch, order, src, w, j, w)
    ensures index == |Plane(ch, order, src, w, j + 1)| && Filled(before, now, Plane(ch, order, src, w, j + 1))
  {
    hide Plane, Upto, Filled;
    UptoEnds(ch, order, src, w, j);
  }

  // ----- Both colour channels in one buffer -------------------------------

  ghost predicate AtPair(before: seq<byte>, now: seq<byte>, index: nat, order: Order, src: seq<byte>,
                         w: nat, j: nat, i: nat)
    requires i <= w && 4 * ((j + 1) * w) <= |src|
  {
    var (cb, cr) := (Upto(Cb, order, src, w, j, i), Upto(Cr, order, src, w, j, i));
    |cb| == |cr| && index == 2 * |cb| && Filled(before, now, Interleave(cb, cr))
  }

  lemma SkipPair(before: seq<byte>, now: seq<byte>, index: nat, order: Order, src: seq<byte>, w: nat, j: nat, i: nat)
    requires i < w && 4 * ((j + 1) * w) <= |src| && !(j % 2 == 0 && i % 2 == 0)
    requires AtPair(before, now, index, order, src, w, j, i)
    ensures AtPair(before, now, index, order, src, w, j, i + 1)
  {
    hide Sample, PixelAt, Upto, Filled, Interleave;
    UptoStep(Cb, order, src, w, j, i);
    UptoStep(Cr, order, src, w, j, i);
    assert Upto(Cb, order, src, w, j, i + 1) == Upto(Cb, order, src, w, j, i);
    assert Upto(Cr, order, src, w, j, i + 1) == Upto(Cr, order, src, w, j, i);
  }

  method PutPair(dst: array<byte>, index: nat, u: byte, v: byte, ghost before: seq<byte>, ghost order: Order,
                 ghost src: seq<byte>, ghost w: nat, ghost h: nat, ghost j: nat, ghost i: nat)
    requires j < h && i < w && 4 * (h * w) <= |src| && j % 2 == 0 && i % 2 == 0
    requires 4 * ((j + 1) * w) <= |src| && 4 * (j * w + i + 1) <= |src|
    requires u == Sample(Cb, PixelAt(order, src, j * w + i)) && v == Sample(Cr, PixelAt(order, src, j * w + i))
    requires 2 * (Samples(Cb, h) * Samples(Cb, w)) <= dst.Length && AtPair(before, dst[..], index, order, src, w, j, i)
    modifies dst
    ensures AtPair(before, dst[..], index + 2, order, src, w, j, i + 1)
  {
    hide Sample, PixelAt, Upto, Filled, Samples, Interleave;
    UptoStep(Cb, order, src, w, j, i);
    UptoStep(Cr, order, src, w, j, i);
    UptoRoom(Cb, order, src, w, h, j, i);
    ghost var (cb, cr) := (Upto(Cb, order, src, w, j, i), Upto(Cr, order, src, w, j, i));
    InterleaveStep(cb, cr, u, v);
    Append(dst, index, u, before, Interleave(cb, cr));
    Append(dst, index + 1, v, before, Interleave(cb, cr) + [u]);
  }

  lemma InterleaveStep(a: seq<byte>, b: seq<byte>, u: byte, v: byte)
    requires |a| == |b|
    ensures |Interleave(a, b)| == 2 * |a|
    ensures Interleave(a + [u], b + [v]) == Interleave(a, b) + [u] + [v]
  {}

  /** The interleaved colour plane. */
  function UvPlane(order: Order, src: seq<byte>, w: nat, rows: nat): seq<byte>
    requires 4 * (rows * w) <= |src|
  {
    Interleave(Plane(Cb, order, src, w, rows), Plane(Cr, order, src, w, rows))
  }

  /** Its even bytes are the Cb samples, its odd bytes the Cr samples. */
  lemma UvSamples(order: Order, src: seq<byte>, w: nat, h: nat, q: nat)
    requires 4 * (h * w) <= |src| && q < |Plane(Cb, order, src, w, h)|
    ensures |UvPlane(order, src, w, h)| == 2 * |Plane(Cb, order, src, w, h)| && |Plane(Cr, order, src, w, h)| == |Plane(Cb, order, src, w, h)|
    ensures UvPlane(order, src, w, h)[2 * q] == Plane(Cb, order, src, w, h)[q]
    ensures UvPlane(order, src, w, h)[2 * q + 1] == Plane(Cr, order, src, w, h)[q]
  {
    hide Plane;
  }

  /** csc_BGRA8888_to_YUV420SP and csc_RGBA8888_to_YUV420SP, for pictures of any size. */
  method ToSemiPlanar(order: Order, yDst: array<byte>, uvDst: array<byte>, src: array<byte>, w: nat, h: nat)
    requires yDst != uvDst && src != yDst && src != uvDst
    requires 4 * (h * w) <= src.Length && Samples(Y, h) * Samples(Y, w) <= yDst.Length
    requires 2 * (Samples(Cb, h) * Samples(Cb, w)) <= uvDst.Length
    modifies yDst, uvDst
    ensures Filled(old(yDst[..]), yDst[..], Plane(Y, order, src[..], w, h))
    ensures Filled(old(uvDst[..]), uvDst[..], UvPlane(order, src[..], w, h))
  {
    hide Plane, Upto, Sample, PixelAt, Samples, Filled, Sum, Interleave, At, AtPair, UvPlane;
    ghost var (y0, uv0) := (yDst[..], uvDst[..]);
    ghost var picture := src[..];
    var yIndex, uvIndex := 0, 0;
    Nothing(Y, order, picture, w, y0);
    NoPairs(order, picture, w, uv0);
    for j := 0 to h
      invariant src[..] == picture && 4 * (j * w) <= |picture|
      invariant yIndex == |Plane(Y, order, picture, w, j)| && Filled(y0, yDst[..], Plane(Y, order, picture, w, j))
      invariant uvIndex == |UvPlane(order, picture, w, j)| && Filled(uv0, uvDst[..], UvPlane(order, picture, w, j))
    {
      MulMono(j + 1, h, w);
      RowBegins(y0, yDst[..], yIndex, Y, order, picture, w, j);
      PairsBegin(uv0, uvDst[..], uvIndex, order, picture, w, j);
      yIndex, uvIndex := RowToSemiPlanar(order, yDst, uvDst, src, w, h, j, yIndex, uvIndex, y0, uv0);
      RowEnds(y0, yDst[..], yIndex, Y, order, picture, w, j);
      PairsEnd(uv0, uvDst[..], uvIndex, order, picture, w, j);
    }
  }

  method RowToSemiPlanar(order: Order, yDst: array<byte>, uvDst: array<byte>, src: array<byte>, w: nat, h: nat, j: nat,
                         y: nat, uv: nat, ghost y0: seq<byte>, ghost uv0: seq<byte>)
    returns (yIndex: nat, uvIndex: nat)
    requires yDst != uvDst && src != yDst && src != uvDst
    requires 4 * (h * w) <= src.Length && Samples(Y, h) * Samples(Y, w) <= yDst.Length
    requires 2 * (Samples(Cb, h) * Samples(Cb, w)) <= uvDst.Length
    requires j < h && 4 * ((j + 1) * w) <= src.Length
    requires At(y0, yDst[..], y, Y, order, src[..], w, j, 0) && AtPair(uv0, uvDst[..], uv, order, src[..], w, j, 0)
    modifies yDst, uvDst
    ensures At(y0, yDst[..], yIndex, Y, order, src[..], w, j, w)
    ensures AtPair(uv0, uvDst[..], uvIndex, order, src[..], w, j, w)
  {
    hide Plane, Upto, Sample, PixelAt, Samples, Filled, Sum, At, AtPair;
    ghost var picture := src[..];
    yIndex, uvIndex := y, uv;
    for i := 0 to w
      invariant src[..] == picture
      invariant At(y0, yDst[..], yIndex, Y, order, picture, w, j, i)
      invariant AtPair(uv0, uvDst[..], uvIndex, order, picture, w, j, i)
    {
      UptoStep(Y, order, picture, w, j, i);
      ghost var p := PixelAt(order, picture, j * w + i);
      var r, g, b := LoadPixel(order, src, j * w + i);
      var luma := LumaOf(p, r, g, b);
      Put(yDst, yIndex, luma, y0, Y, order, picture, w, h, j, i);
      yIndex := yIndex + 1;
      if j % 2 == 0 && i % 2 == 0 {
        var cb := CbOf(p, r, g, b);
        var cr := CrOf(p, r, g, b);
        PutPair(uvDst, uvIndex, cb, cr, uv0, order, picture, w, h, j, i);
        uvIndex := uvIndex + 2;
      } else {
        SkipPair(uv0, uvDst[..], uvIndex, order, picture, w, j, i);
      }
    }
  }

  lemma NoPairs(order: Order, src: seq<byte>, w: nat, bytes: seq<byte>)
    ensures UvPlane(order, src, w, 0) == [] && Filled(bytes, bytes, [])
  {}

  lemma PairsBegin(before: seq<byte>, now: seq<byte>, index: nat, order: Order, src: seq<byte>, w: nat, j: nat)
    requires 4 * ((j + 1) * w) <= |src| && 4 * (j * w) <= |src|
    requires index == |UvPlane(order, src, w, j)| && Filled(before, now, UvPlane(order, src, w, j))
    ensures AtPair(before, now, index, order, src, w, j, 0)
  {
    hide Plane, Upto, Filled;
    UptoEnds(Cb, order, src, w, j);
    UptoEnds(Cr, order, src, w, j);
  }

  lemma PairsEnd(before: seq<byte>, now: seq<byte>, index: nat, order: Order, src: seq<byte>, w: nat, j: nat)
    requires 4 * ((j + 1) * w) <= |src| && AtPair(before, now, index, order, src, w, j, w)
    ensures index == |UvPlane(order, src, w, j + 1)| && Filled(before, now, UvPlane(order, src, w, j + 1))
  {
    hide Plane, Upto, Filled;
    UptoEnds(Cb, order, src, w, j);
    UptoEnds(Cr, order, src, w, j);
  }
}
