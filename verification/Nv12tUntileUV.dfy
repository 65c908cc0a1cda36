/** csc_tiled_to_linear_deinterleave_crop: what csc_tiled_to_linear_crop puts out, taken apart into two planes pair by
    pair. Every memcpy takes whole pairs of columns, so what the planes show depends on where the memcpys end. */
module Nv12tUntileUV {
  import opened Bytes
  import opened Common
  import opened Nv12tLayout
  import opened Nv12tUntile

  // ----- What goes where --------------------------------------------------

  /** The first column behind the block of the left edge. */
  function BlockEnd(c: Crop): nat { c.left + (64 - c.left % 64) }

  /** The pairs of a row's first memcpy. */
  function Head(c: Crop): nat { (64 - c.left % 64) / 2 }

  /** The place a wide row leaves behind them when that memcpy ends on half a pair. */
  function Gap(c: Crop): nat
    requires c.Valid()
  {
    if c.Width() >= 256 && c.left % 2 == 1 then 1 else 0
  }

  /** The place in its row of the pair that starts at column x, for rows of 64 columns and more. */
  function SlotOf(c: Crop, x: nat): nat
    requires c.Valid() && c.left <= x
  {
    if x < BlockEnd(c) then (x - c.left) / 2 else Head(c) + Gap(c) + (x - BlockEnd(c)) / 2
  }

  /** How many places a row covers. */
  function Slots(c: Crop): nat
    requires c.Valid()
  {
    if c.Narrow() then (c.Width() + 1) / 2 else SlotOf(c, c.End())
  }

  /** The column from which the pair at place k comes. */
  function PairColumn(c: Crop, k: nat): (column: Option<nat>)
    requires c.Valid() && k < Slots(c)
    ensures column.Some? ==> c.left <= column.value && column.value + 1 < c.End() + c.Over()
  {
    if c.Narrow() || k < Head(c) then Some(c.left + 2 * k)
    else if k < Head(c) + Gap(c) then None
    else Some(BlockEnd(c) + 2 * (k - Head(c) - Gap(c)))
  }

  /** Where row y starts in both planes. */
  function Start(c: Crop, y: nat): nat
    requires c.Valid() && c.top <= y
  {
    MulMono(0, c.Width(), y - c.top);
    c.Width() * (y - c.top) / 2
  }

  /** What the plane for the first (side 0) or second (side 1) bytes shows at place k of row y. */
  function SlotByte(c: Crop, s: seq<byte>, y: nat, side: nat, k: nat, kept: byte): byte
    requires c.Valid() && c.Readable(s) && y < c.h && side <= 1 && k < Slots(c)
  {
    match PairColumn(c, k)
    case None => kept
    case Some(x) => OutByte(c, s, x + side, y)
  }

  /** The plane p after the first k places of row y. */
  function PutSlots(c: Crop, s: seq<byte>, y: nat, side: nat, p: seq<byte>, k: nat): (r: seq<byte>)
    requires c.Valid() && c.Readable(s) && c.top <= y < c.h && side <= 1 && k <= Slots(c) && Start(c, y) + k <= |p|
    ensures |r| == |p|
  {
    seq(|p|, q requires 0 <= q < |p| =>
      if Start(c, y) <= q < Start(c, y) + k then SlotByte(c, s, y, side, q - Start(c, y), p[q]) else p[q])
  }

  /** The room a plane needs for the rows above row i. */
  function Room(c: Crop, i: nat): nat
    requires c.Valid() && c.top <= i
  {
    if i == c.top then 0 else Start(c, i - 1) + Slots(c)
  }

  lemma RoomGrows(c: Crop, i: nat, j: nat)
    requires c.Valid() && c.top <= i <= j
    ensures Room(c, i) <= Room(c, j)
  {
    hide Slots;
    if i > c.top {
      MulMono(i - 1 - c.top, j - 1 - c.top, c.Width());
      HalfMono(c.Width() * (i - 1 - c.top), c.Width() * (j - 1 - c.top));
    }
  }

  lemma HalfMono(a: int, b: int)
    requires a <= b
    ensures a / 2 <= b / 2
  {}

  /** The plane p after the rows above row i. Later rows overwrite what earlier ones have put beyond their end. */
  function Plane(c: Crop, s: seq<byte>, side: nat, p: seq<byte>, i: nat): (r: seq<byte>)
    requires c.Valid() && c.Readable(s) && c.top <= i <= c.Last() && side <= 1 && Room(c, i) <= |p|
    ensures |r| == |p|
    decreases i
  {
    if i == c.top then p
    else
      RoomGrows(c, i - 1, i);
      PutSlots(c, s, i - 1, side, Plane(c, s, side, p, i - 1), Slots(c))
  }

  // ----- One memcpy -------------------------------------------------------

  /** The n columns from x of row y are n bytes of the tiled plane from offset a. */
  ghost predicate Reads(c: Crop, s: seq<byte>, y: nat, x: nat, n: nat, a: nat)
    requires c.Valid() && c.Readable(s) && y < c.h && c.left <= x && x + n <= c.End() + c.Over()
  {
    && a + n <= |s|
    && forall z {:trigger OutByte(c, s, z, y)} | x <= z < x + n :: OutByte(c, s, z, y) == s[a + (z - x)]
  }

  /** The pairs from column x fill the m places from k. */
  ghost predicate Takes(c: Crop, x: nat, k: nat, m: nat)
    requires c.Valid()
  {
    && k + m <= Slots(c)
    && forall z: nat {:trigger PairColumn(c, z)} | k <= z < k + m :: PairColumn(c, z) == Some(x + 2 * (z - k))
  }

  /** A row on its way out: row y of the plane tiled in s, into the planes u0 and v0. */
  datatype SplitJob = SplitJob(c: Crop, s: seq<byte>, y: nat, u0: seq<byte>, v0: seq<byte>) {
    predicate Valid() {
      && c.Valid() && c.Readable(s) && c.top <= y < c.h
      && Start(c, y) + Slots(c) <= |u0| && Start(c, y) + Slots(c) <= |v0|
    }

    /** The first k places have been filled. */
    ghost predicate Filled(u: array<byte>, v: array<byte>, src: array<byte>, k: nat)
      reads u, v, src
    {
      && Valid() && k <= Slots(c) && s == src[..] && u != src && v != src && u != v
      && u[..] == PutSlots(c, s, y, 0, u0, k) && v[..] == PutSlots(c, s, y, 1, v0, k)
    }
  }

  lemma MoreSlots(c: Crop, s: seq<byte>, y: nat, side: nat, p: seq<byte>, k: nat, x: nat, n: nat, a: nat,
                  was: seq<byte>, now: seq<byte>)
    requires c.Valid() && c.Readable(s) && c.top <= y < c.h && side <= 1 && k <= Slots(c) && Start(c, y) + Slots(c) <= |p|
    requires c.left <= x && x + n <= c.End() + c.Over() && Reads(c, s, y, x, n, a) && Takes(c, x, k, n / 2)
    requires was == PutSlots(c, s, y, side, p, k) && |now| == |p|
    requires var (d, m) := (Start(c, y) + k, n / 2);
             && (forall q: nat {:trigger now[q]} | q < |p| && !(d <= q < d + m) :: now[q] == was[q])
             && forall q: nat {:trigger now[q]} | d <= q < d + m :: now[q] == s[a + 2 * (q - d) + side]
    ensures now == PutSlots(c, s, y, side, p, k + n / 2)
  {
    hide OutByte, PairColumn, Slots, Start, Crop.Readable;
    var d := Start(c, y) + k;
    forall q: nat | q < |p|
      ensures now[q] == PutSlots(c, s, y, side, p, k + n / 2)[q]
    {
      if d <= q < d + n / 2 {
        var z := q - Start(c, y);
        assert PairColumn(c, z) == Some(x + 2 * (z - k));
        assert OutByte(c, s, x + 2 * (z - k) + side, y) == s[a + (2 * (z - k) + side)];
      }
    }
  }

  /** One csc_deinterleave_memcpy of n columns. */
  method SplitMemcpy(u: array<byte>, v: array<byte>, d: nat, src: array<byte>, s: nat, n: nat,
                     ghost x: nat, ghost k: nat, ghost job: SplitJob)
    requires job.Filled(u, v, src, k) && job.c.left <= x && x + n <= job.c.End() + job.c.Over()
    requires d == Start(job.c, job.y) + k && Reads(job.c, job.s, job.y, x, n, s) && Takes(job.c, x, k, n / 2)
    modifies u, v
    ensures job.Filled(u, v, src, k + n / 2)
  {
    hide OutByte, PairColumn, Slots, Start, Crop.Readable, PutSlots, Evens, Odds;
    ghost var (u1, v1, strip) := (u[..], v[..], src[s..s + n]);
    DeinterleaveMemcpy(u, v, d, src, s, n);
    Spread(u[..], u1, d, Evens(strip));
    Spread(v[..], v1, d, Odds(strip));
    PairAt(src[..], s, n);
    MoreSlots(job.c, job.s, job.y, 0, job.u0, k, x, n, s, u1, u[..]);
    MoreSlots(job.c, job.s, job.y, 1, job.v0, k, x, n, s, v1, v[..]);
  }

  lemma Spread(now: seq<byte>, was: seq<byte>, d: nat, strip: seq<byte>)
    requires |now| == |was| && d + |strip| <= |was|
    requires now[..d + |strip|] == was[..d] + strip && now[d + |strip|..] == was[d + |strip|..]
    ensures forall q: nat {:trigger now[q]} | q < |was| && !(d <= q < d + |strip|) :: now[q] == was[q]
    ensures forall q: nat {:trigger now[q]} | d <= q < d + |strip| :: now[q] == strip[q - d]
  {
    Spliced(now, was, d, strip);
  }

  lemma PairAt(s: seq<byte>, a: nat, n: nat)
    requires a + n <= |s|
    ensures |Evens(s[a..a + n])| == |Odds(s[a..a + n])| == n / 2
    ensures forall j: nat {:trigger Evens(s[a..a + n])[j]} | j < n / 2 :: Evens(s[a..a + n])[j] == s[a + 2 * j]
    ensures forall j: nat {:trigger Odds(s[a..a + n])[j]} | j < n / 2 :: Odds(s[a..a + n])[j] == s[a + 2 * j + 1]
  {}

  // ----- Which places a memcpy fills --------------------------------------

  /** The memcpys of a row of 64 columns and more: from the left edge to the end of its block, and from a block on. */
  lemma BlockTakes(c: Crop, x: nat, n: nat)
    requires c.Valid() && !c.Narrow() && x + n <= c.End()
    requires (x == c.left && n == BlockEnd(c) - x) || (x >= BlockEnd(c) && x % 64 == 0)
    ensures c.left <= x && Takes(c, x, SlotOf(c, x), n / 2)
  {
    if x >= BlockEnd(c) {
      FromBlockEnd(c, x);
    }
  }

  /** A left edge is as odd as its place in its block, and the block's other columns are so many pairs. */
  lemma LeftParts(left: nat)
    ensures var (l, t) := (left / 64, left % 64);
            && left == 64 * l + t && left % 2 == t % 2 && (64 - t) / 2 + t % 2 == 32 - t / 2
            && left + (64 - t) == 64 * (l + 1) && 64 * (l + 1) % 64 == 0
  {
    var (l, a, b) := (left / 64, left % 64 / 2, left % 64 % 2);
    Parts(left, 2, 32 * l + a, b);
    Parts(64 - left % 64, 2, 32 - a - b, b);
    Parts(64 * (l + 1), 64, l + 1, 0);
  }

  lemma FromBlockEnd(c: Crop, x: nat)
    requires x >= BlockEnd(c) && x % 64 == 0
    ensures (x - BlockEnd(c)) % 64 == 0 && (x - BlockEnd(c)) / 2 * 2 == x - BlockEnd(c)
  {
    LeftParts(c.left);
    var k := x / 64 - (c.left / 64 + 1);
    assert x == 64 * (x / 64);
    Parts(64 * k, 64, k, 0);
    Parts(64 * k, 2, 32 * k, 0);
  }

  /** A place that no pair goes to is filled by leaving it alone. */
  lemma SkipsGap(u: array<byte>, v: array<byte>, src: array<byte>, job: SplitJob)
    requires job.Filled(u, v, src, Head(job.c)) && !job.c.Narrow()
    ensures job.Filled(u, v, src, SlotOf(job.c, BlockEnd(job.c)))
  {
    hide OutByte, Crop.Readable, Start;
    var (c, k) := (job.c, Head(job.c));
    assert Gap(c) == 1 ==> PairColumn(c, k) == None;
    assert PutSlots(c, job.s, job.y, 0, job.u0, k) == PutSlots(c, job.s, job.y, 0, job.u0, k + Gap(c));
    assert PutSlots(c, job.s, job.y, 1, job.v0, k) == PutSlots(c, job.s, job.y, 1, job.v0, k + Gap(c));
  }

  // ----- The branch for 256 columns and more ------------------------------

  lemma StripReads(c: Crop, s: seq<byte>, y: nat, x: nat, n: nat)
    requires c.Valid() && c.Width() >= 256 && c.Readable(s) && y < c.h
    requires 0 < n && c.left <= x && x + n <= c.End() && x % 64 + n <= 64
    ensures Reads(c, s, y, x, n, Addr(c.w, c.h, x, y))
  {
    hide Addr, Crop.Readable;
    OutAddrReadable(c, s, x + n - 1, y);
    StripIsContiguous(c.w, c.h, x, y, n - 1);
    forall z: nat {:trigger OutByte(c, s, z, y)} | x <= z < x + n
      ensures OutByte(c, s, z, y) == s[Addr(c.w, c.h, x, y) + (z - x)]
    {
      StripIsContiguous(c.w, c.h, x, y, z - x);
    }
  }

  /** One memcpy within a block: up to its end from the left edge, or from its start. */
  method SplitStrip(u: array<byte>, v: array<byte>, d: nat, src: array<byte>, s: nat, n: nat,
                    ghost x: nat, ghost job: SplitJob)
    requires job.c.Valid() && job.c.Width() >= 256 && job.c.left <= x && job.Filled(u, v, src, SlotOf(job.c, x))
    requires x + n <= job.c.End()
    requires (x == job.c.left && n == BlockEnd(job.c) - x) || (x >= BlockEnd(job.c) && x % 64 == 0 && n <= 64)
    requires d == Start(job.c, job.y) + SlotOf(job.c, x) && (n > 0 ==> s == Addr(job.c.w, job.c.h, x, job.y))
    modifies u, v
    ensures job.Filled(u, v, src, SlotOf(job.c, x + n))
  {
    hide Addr, TiledSize, Start, Crop.Readable, Reads, Takes, Slots, SplitJob.Filled;
    if n > 0 {
      JobReads(u, v, src, x, n, job);
      BlockTakes(job.c, x, n);
      SplitMemcpy(u, v, d, src, s, n, x, SlotOf(job.c, x), job);
      if x == job.c.left {
        SkipsGap(u, v, src, job);
      } else {
        FromBlockEnd(job.c, x);
      }
    }
  }

  lemma JobReads(u: array<byte>, v: array<byte>, src: array<byte>, x: nat, n: nat, job: SplitJob)
    requires job.c.Valid() && job.c.Width() >= 256 && job.c.left <= x && job.Filled(u, v, src, SlotOf(job.c, x))
    requires 0 < n && x + n <= job.c.End() && x % 64 + n <= 64
    ensures job.Valid() && Reads(job.c, job.s, job.y, x, n, Addr(job.c.w, job.c.h, x, job.y))
  {
    hide Addr, Crop.Readable, PutSlots, Reads, Slots, Start, SlotOf;
    StripReads(job.c, job.s, job.y, x, n);
  }

  /** The offsets in the code, 32 - temp1 / 2 and on, are the places of the blocks behind the first. */
  lemma FirstSlots(c: Crop)
    requires c.Valid() && c.Width() >= 256
    ensures var (e, t) := (BlockEnd(c), c.left % 64);
            && e == c.left + (64 - t) && e % 64 == 0 && SlotOf(c, c.left) == 0 && SlotOf(c, e) == 32 - t / 2
            && SlotOf(c, e + 64) == 64 - t / 2 && SlotOf(c, e + 128) == 96 - t / 2 && SlotOf(c, e + 192) == 128 - t / 2
  {
    LeftParts(c.left);
  }

  lemma LaterSlots(c: Crop, x: nat)
    requires c.Valid() && x >= BlockEnd(c) && x % 64 == 0
    ensures SlotOf(c, x + 64) == SlotOf(c, x) + 32 && SlotOf(c, x + 128) == SlotOf(c, x) + 64
    ensures SlotOf(c, x + 192) == SlotOf(c, x) + 96 && SlotOf(c, x + 256) == SlotOf(c, x) + 128
  {
    FromBlockEnd(c, x);
  }

  method FirstStrip(u: array<byte>, v: array<byte>, src: array<byte>, left: nat, linear: nat,
                    tiledOffset: nat, tiledOffset1: nat, ghost job: SplitJob)
    returns (linearOffset: nat)
    requires job.c.Valid() && job.c.Width() >= 256 && left == job.c.left && job.Filled(u, v, src, 0)
    requires linear == Start(job.c, job.y)
    requires tiledOffset == Addr(job.c.w, job.c.h, left / 256 * 256, job.y)
    requires tiledOffset1 == Addr(job.c.w, job.c.h, left / 256 * 256 + 128, job.y)
    modifies u, v
    ensures left <= left / 256 * 256 + 256
    ensures linearOffset == Start(job.c, job.y) + SlotOf(job.c, left / 256 * 256 + 256)
    ensures job.Filled(u, v, src, SlotOf(job.c, left / 256 * 256 + 256))
  {
    hide Addr, TiledSize, SplitJob.Filled, Start, SlotOf, BlockEnd, Head, Gap, Slots, ThirdBlock, NextStrip;
    ghost var (base, c, y) := (left / 256 * 256, job.c, job.y);
    CropPosition(left);
    StripBlocks(c.w, c.h, base, y);
    FirstSlots(c);
    linearOffset := linear;
    var temp3 := (left + 256) / 256 * 256 - left;
    var temp1 := left % 64;
    if temp3 > 192 {
      assert BlockEnd(c) == base + 64;
      StripIsContiguous(c.w, c.h, base, y, temp1);
      SplitStrip(u, v, linearOffset, src, tiledOffset + temp1, 64 - temp1, left, job);
      SplitStrip(u, v, linearOffset + (32 - temp1 / 2), src, tiledOffset + 2048, 64, base + 64, job);
      SplitStrip(u, v, linearOffset + (64 - temp1 / 2), src, tiledOffset1, 64, base + 128, job);
      SplitStrip(u, v, linearOffset + (96 - temp1 / 2), src, tiledOffset1 + 2048, 64, base + 192, job);
      linearOffset := linearOffset + 128 - temp1 / 2;
    } else if temp3 > 128 {
      assert BlockEnd(c) == base + 128;
      StripIsContiguous(c.w, c.h, base + 64, y, temp1);
      SplitStrip(u, v, linearOffset, src, tiledOffset + 2048 + temp1, 64 - temp1, left, job);
      SplitStrip(u, v, linearOffset + (32 - temp1 / 2), src, tiledOffset1, 64, base + 128, job);
      SplitStrip(u, v, linearOffset + (64 - temp1 / 2), src, tiledOffset1 + 2048, 64, base + 192, job);
      linearOffset := linearOffset + 96 - temp1 / 2;
    } else if temp3 > 64 {
      assert BlockEnd(c) == base + 192;
      StripIsContiguous(c.w, c.h, base + 128, y, temp1);
      SplitStrip(u, v, linearOffset, src, tiledOffset1 + temp1, 64 - temp1, left, job);
      SplitStrip(u, v, linearOffset + (32 - temp1 / 2), src, tiledOffset1 + 2048, 64, base + 192, job);
      linearOffset := linearOffset + 64 - temp1 / 2;
    } else {
      assert BlockEnd(c) == base + 256;
      StripIsContiguous(c.w, c.h, base + 192, y, temp1);
      SplitStrip(u, v, linearOffset, src, tiledOffset1 + 2048 + temp1, 64 - temp1, left, job);
      linearOffset := linearOffset + 32 - temp1 / 2;
    }
  }

  method WholeStrip(u: array<byte>, v: array<byte>, src: array<byte>, linearOffset: nat,
                    tiledOffset: nat, tiledOffset1: nat, ghost j: nat, ghost job: SplitJob)
    requires job.c.Valid() && job.c.Width() >= 256 && j >= BlockEnd(job.c) && j % 256 == 0 && j + 256 <= job.c.End()
    requires job.Filled(u, v, src, SlotOf(job.c, j)) && linearOffset == Start(job.c, job.y) + SlotOf(job.c, j)
    requires tiledOffset == Addr(job.c.w, job.c.h, j, job.y)
    requires tiledOffset1 == Addr(job.c.w, job.c.h, j + 128, job.y)
    modifies u, v
    ensures job.Filled(u, v, src, SlotOf(job.c, j + 256))
  {
    hide Addr, TiledSize, NextStrip, ThirdBlock, SplitJob.Filled, Start, SlotOf;
    StripBlocks(job.c.w, job.c.h, j, job.y);
    LaterSlots(job.c, j);
    SplitStrip(u, v, linearOffset, src, tiledOffset, 64, j, job);
    SplitStrip(u, v, linearOffset + 32, src, tiledOffset + 2048, 64, j + 64, job);
    SplitStrip(u, v, linearOffset + 64, src, tiledOffset1, 64, j + 128, job);
    SplitStrip(u, v, linearOffset + 96, src, tiledOffset1 + 2048, 64, j + 192, job);
  }

  method LastStrip(u: array<byte>, v: array<byte>, src: array<byte>, temp2: nat, linearOffset: nat,
                   tiledOffset: nat, tiledOffset1: nat, ghost j: nat, ghost job: SplitJob)
    requires job.c.Valid() && job.c.Width() >= 256 && j >= BlockEnd(job.c) && j % 256 == 0
    requires j + temp2 == job.c.End() && temp2 < 256
    requires job.Filled(u, v, src, SlotOf(job.c, j)) && linearOffset == Start(job.c, job.y) + SlotOf(job.c, j)
    requires tiledOffset == Addr(job.c.w, job.c.h, j, job.y)
    requires tiledOffset1 == Addr(job.c.w, job.c.h, j + 128, job.y)
    modifies u, v
    ensures job.Filled(u, v, src, SlotOf(job.c, job.c.End()))
  {
    hide Addr, TiledSize, NextStrip, ThirdBlock, SplitJob.Filled, Start, SlotOf;
    StripBlocks(job.c.w, job.c.h, j, job.y);
    LaterSlots(job.c, j);
    if temp2 > 192 {
      SplitStrip(u, v, linearOffset, src, tiledOffset, 64, j, job);
      SplitStrip(u, v, linearOffset + 32, src, tiledOffset + 2048, 64, j + 64, job);
      SplitStrip(u, v, linearOffset + 64, src, tiledOffset1, 64, j + 128, job);
      SplitStrip(u, v, linearOffset + 96, src, tiledOffset1 + 2048, temp2 - 192, j + 192, job);
    } else if temp2 > 128 {
      SplitStrip(u, v, linearOffset, src, tiledOffset, 64, j, job);
      SplitStrip(u, v, linearOffset + 32, src, tiledOffset + 2048, 64, j + 64, job);
      SplitStrip(u, v, linearOffset + 64, src, tiledOffset1, temp2 - 128, j + 128, job);
    } else if temp2 > 64 {
      SplitStrip(u, v, linearOffset, src, tiledOffset, 64, j, job);
      SplitStrip(u, v, linearOffset + 32, src, tiledOffset + 2048, temp2 - 64, j + 64, job);
    } else {
      SplitStrip(u, v, linearOffset, src, tiledOffset, temp2, j, job);
    }
  }

  method MiddleStrips(u: array<byte>, v: array<byte>, src: array<byte>, xe: nat, j0: nat, linearOffset0: nat,
                      tiledOffset0: nat, tiledOffset01: nat, temp4: nat, ghost job: SplitJob)
    returns (j: nat, linearOffset: nat, tiledOffset: nat, tiledOffset1: nat)
    requires job.c.Valid() && job.c.Width() >= 256 && xe == job.c.End() && j0 >= BlockEnd(job.c) && j0 % 256 == 0 && j0 <= xe
    requires job.Filled(u, v, src, SlotOf(job.c, j0)) && linearOffset0 == Start(job.c, job.y) + SlotOf(job.c, j0)
    requires temp4 == NextStrip(job.c.h, job.y) && job.c.top <= job.y
    requires tiledOffset0 == Addr(job.c.w, job.c.h, j0, job.y)
    requires tiledOffset01 + temp4 * 2048 == Addr(job.c.w, job.c.h, j0 + 128, job.y)
    modifies u, v
    ensures j >= BlockEnd(job.c) && j % 256 == 0 && j <= xe < j + 256
    ensures job.Filled(u, v, src, SlotOf(job.c, j)) && linearOffset == Start(job.c, job.y) + SlotOf(job.c, j)
    ensures tiledOffset == Addr(job.c.w, job.c.h, j, job.y)
    ensures tiledOffset1 + temp4 * 2048 == Addr(job.c.w, job.c.h, j + 128, job.y)
  {
    hide Addr, TiledSize, NextStrip, ThirdBlock, SplitJob.Filled, Start, SlotOf;
    j, linearOffset, tiledOffset, tiledOffset1 := j0, linearOffset0, tiledOffset0, tiledOffset01;
    var temp2 := xe - 256;
    while j <= temp2
      invariant j >= BlockEnd(job.c) && j % 256 == 0 && j <= xe
      invariant linearOffset == Start(job.c, job.y) + SlotOf(job.c, j)
      invariant tiledOffset == Addr(job.c.w, job.c.h, j, job.y)
      invariant tiledOffset1 + temp4 * 2048 == Addr(job.c.w, job.c.h, j + 128, job.y)
      invariant job.Filled(u, v, src, SlotOf(job.c, j))
    {
      StripBlocks(job.c.w, job.c.h, j, job.y);
      StripBlocks(job.c.w, job.c.h, j + 256, job.y);
      LaterSlots(job.c, j);
      tiledOffset1 := tiledOffset1 + temp4 * 2048;
      WholeStrip(u, v, src, linearOffset, tiledOffset, tiledOffset1, j, job);
      tiledOffset := tiledOffset + temp4 * 2048;
      linearOffset := linearOffset + 128;
      j := j + 256;
    }
  }

  method SplitRowWide(c: Crop, u: array<byte>, v: array<byte>, src: array<byte>, i: nat, linear: nat, ghost job: SplitJob)
    requires c.Valid() && c.Width() >= 256 && job.c == c && job.y == i && i < c.h && c.top <= i && linear == Start(c, i)
    requires job.Filled(u, v, src, 0)
    modifies u, v
    ensures job.Filled(u, v, src, Slots(c))
  {
    hide Addr, TiledSize, NextStrip, ThirdBlock, SplitJob.Filled, Start, SlotOf;
    var j := c.left / 256 * 256;
    CropPosition(c.left);
    FirstSlots(c);
    var tiledOffset, tiledOffset1, temp4 := StripBase(c.w, c.h, j / 64, i);
    StripBlocks(c.w, c.h, j, i);
    StripBlocks(c.w, c.h, j + 256, i);
    var linearOffset := FirstStrip(u, v, src, c.left, linear, tiledOffset, tiledOffset1, job);
    tiledOffset := tiledOffset + temp4 * 2048;
    j, linearOffset, tiledOffset, tiledOffset1 := MiddleStrips(
      u, v, src, c.w - c.right, j + 256, linearOffset, tiledOffset, tiledOffset1, temp4, job);
    tiledOffset1 := tiledOffset1 + temp4 * 2048;
    LastStrip(u, v, src, c.w - c.right - j, linearOffset, tiledOffset, tiledOffset1, j, job);
  }

  // ----- The branches that ask tile_4x2_read ------------------------------

  lemma SegmentReads(c: Crop, s: seq<byte>, y: nat, x: nat, n: nat)
    requires c.Valid() && c.Width() < 256 && c.Readable(s) && y < c.h && c.w > 0
    requires 0 < n && c.left <= x && x + n <= c.End() + c.Over()
    requires forall z {:trigger StartOf(c, z)} | x <= z < x + n :: StartOf(c, z) == x
    ensures Reads(c, s, y, x, n, ReadAddr(c.w, c.h, x, y))
  {
    hide Addr, Tile4x2Read, StartOf, Crop.Readable;
    OutAddrReadable(c, s, x + n - 1, y);
    assert StartOf(c, x + n - 1) == x;
    forall z: nat {:trigger OutByte(c, s, z, y)} | x <= z < x + n
      ensures OutByte(c, s, z, y) == s[ReadAddr(c.w, c.h, x, y) + (z - x)]
    {
      assert StartOf(c, z) == x;
    }
  }

  method SplitSegment(c: Crop, u: array<byte>, v: array<byte>, d: nat, src: array<byte>, s: nat, n: nat,
                      ghost x: nat, ghost k: nat, ghost job: SplitJob)
    requires c.Valid() && c.Width() < 256 && c.w > 0 && job.c == c && job.Filled(u, v, src, k)
    requires 0 < n && c.left <= x && x + n <= c.End() + c.Over() && d == Start(c, job.y) + k
    requires s == ReadAddr(c.w, c.h, x, job.y) && Takes(c, x, k, n / 2)
    requires forall z {:trigger StartOf(c, z)} | x <= z < x + n :: StartOf(c, z) == x
    modifies u, v
    ensures job.Filled(u, v, src, k + n / 2)
  {
    hide Addr, ReadAddr, StartOf, Takes, PutSlots, Start, Slots, Crop.Readable;
    SegmentReads(c, job.s, job.y, x, n);
    SplitMemcpy(u, v, d, src, s, n, x, k, job);
  }

  method SplitRowMedium(c: Crop, u: array<byte>, v: array<byte>, src: array<byte>, i: nat, linear: nat, ghost job: SplitJob)
    requires c.Valid() && c.Medium() && job.c == c && job.y == i && i < c.h && c.top <= i && linear == Start(c, i)
    requires job.Filled(u, v, src, 0)
    modifies u, v
    ensures job.Filled(u, v, src, Slots(c))
  {
    hide Addr, Tile4x2Read, SplitJob.Filled, Start, SlotOf, Takes, StartOf, Crop.LastStart;
    MediumSteps(c);
    MediumSlots(c);
    var temp3 := c.w - c.right;
    var j, linearOffset := c.left, linear;
    var tiledOffset := Tile4x2Read(c.w, c.h, j, i);
    var temp2 := (j + 64) / 64 * 64 - j;
    Segments(c, j, temp2);
    BlockTakes(c, j, temp2);
    SplitSegment(c, u, v, linearOffset, src, tiledOffset + j % 4, temp2, j, 0, job);
    linearOffset := linearOffset + temp2 / 2;
    j := j + temp2;
    if j + 64 <= temp3 {
      tiledOffset := Tile4x2Read(c.w, c.h, j, i);
      Segments(c, j, 64);
      BlockTakes(c, j, 64);
      SplitSegment(c, u, v, linearOffset, src, tiledOffset, 64, j, SlotOf(c, j), job);
      linearOffset := linearOffset + 32;
      j := j + 64;
    }
    if j + 64 <= temp3 {
      tiledOffset := Tile4x2Read(c.w, c.h, j, i);
      Segments(c, j, 64);
      BlockTakes(c, j, 64);
      SplitSegment(c, u, v, linearOffset, src, tiledOffset, 64, j, SlotOf(c, j), job);
      linearOffset := linearOffset + 32;
      j := j + 64;
    }
    RestSlots(c, j);
    if j < temp3 {
      tiledOffset := Tile4x2Read(c.w, c.h, j, i);
      Segments(c, j, temp3 - j);
      BlockTakes(c, j, temp3 - j);
      SplitSegment(c, u, v, linearOffset, src, tiledOffset, temp3 - j, j, SlotOf(c, j), job);
    }
  }

  lemma MediumSlots(c: Crop)
    requires c.Valid() && c.Medium()
    ensures var e := (c.left + 64) / 64 * 64;
            && BlockEnd(c) == e && e % 64 == 0 && (e + 64) % 64 == 0 && (e + 128) % 64 == 0
            && SlotOf(c, c.left) == 0 && SlotOf(c, e) == (e - c.left) / 2
            && SlotOf(c, e + 64) == SlotOf(c, e) + 32 && SlotOf(c, e + 128) == SlotOf(c, e) + 64
  {
    ToStripEnd(c.left);
    LaterSlots(c, BlockEnd(c));
  }

  /** What the last memcpy of a row fills completes it. */
  lemma RestSlots(c: Crop, x: nat)
    requires c.Valid() && !c.Narrow() && BlockEnd(c) <= x <= c.End() && x % 64 == 0
    ensures SlotOf(c, x) + (c.End() - x) / 2 == Slots(c)
  {
    FromBlockEnd(c, x);
  }

  method SplitRowNarrow(c: Crop, u: array<byte>, v: array<byte>, src: array<byte>, i: nat, linear: nat, ghost job: SplitJob)
    requires c.Valid() && c.Narrow() && job.c == c && job.y == i && i < c.h && c.top <= i && linear == Start(c, i)
    requires job.Filled(u, v, src, 0)
    modifies u, v
    ensures job.Filled(u, v, src, Slots(c))
  {
    hide Addr, Tile4x2Read, SplitJob.Filled, Start, Takes, StartOf;
    var linearOffset := linear;
    var j := c.left;
    while j < c.w - c.right
      invariant (j - c.left) % 2 == 0 && c.left <= j <= c.End() + c.Over()
      invariant linearOffset == linear + (j - c.left) / 2 && job.Filled(u, v, src, (j - c.left) / 2)
    {
      PairTakes(c, j);
      var tiledOffset := Tile4x2Read(c.w, c.h, j, i);
      var temp3 := j % 4;
      tiledOffset := tiledOffset + temp3;
      SplitSegment(c, u, v, linearOffset, src, tiledOffset, 2, j, (j - c.left) / 2, job);
      linearOffset := linearOffset + 1;
      j := j + 2;
    }
  }

  lemma PairTakes(c: Crop, j: nat)
    requires c.Valid() && c.Narrow() && c.left <= j < c.End() && (j - c.left) % 2 == 0
    ensures j + 2 <= c.End() + c.Over() && Takes(c, j, (j - c.left) / 2, 1)
    ensures forall z {:trigger StartOf(c, z)} | j <= z < j + 2 :: StartOf(c, z) == j
  {}

  // ----- The converter ----------------------------------------------------

  lemma NothingFilled(u: array<byte>, v: array<byte>, src: array<byte>, job: SplitJob)
    requires job.Valid() && job.s == src[..] && u != src && v != src && u != v && job.u0 == u[..] && job.v0 == v[..]
    ensures job.Filled(u, v, src, 0)
  {
    hide SlotByte, Start, Slots, Crop.Readable;
  }

  lemma RowStarts(c: Crop, i: nat)
    requires c.Valid() && c.top <= i
    ensures 0 <= c.Width() * (i - c.top) / 2 == Start(c, i) && Room(c, i + 1) == Start(c, i) + Slots(c)
  {
    hide Slots;
    MulMono(0, c.Width(), i - c.top);
  }

  lemma RowFilled(u: array<byte>, v: array<byte>, src: array<byte>, job: SplitJob)
    requires job.Valid() && job.Filled(u, v, src, Slots(job.c))
    ensures src[..] == job.s
    ensures u[..] == PutSlots(job.c, job.s, job.y, 0, job.u0, Slots(job.c))
    ensures v[..] == PutSlots(job.c, job.s, job.y, 1, job.v0, Slots(job.c))
  {
    hide PutSlots, Slots, Start, Crop.Readable;
  }

  /** csc_tiled_to_linear_deinterleave_crop, for every crop: both planes are filled place by place. */
  method TiledToLinearDeinterleaveCrop(u: array<byte>, v: array<byte>, src: array<byte>,
                                       w: nat, h: nat, left: nat, top: nat, right: nat, bottom: nat)
    requires u != src && v != src && u != v
    requires var c := Crop(w, h, left, top, right, bottom);
             c.Valid() && c.Readable(src[..]) && Room(c, c.Last()) <= u.Length && Room(c, c.Last()) <= v.Length
    modifies u, v
    ensures var c := Crop(w, h, left, top, right, bottom);
            u[..] == Plane(c, src[..], 0, old(u[..]), c.Last()) && v[..] == Plane(c, src[..], 1, old(v[..]), c.Last())
  {
    hide Addr, PutSlots, SplitJob.Filled, Slots, Start, Room, Crop.Readable;
    var c := Crop(w, h, left, top, right, bottom);
    ghost var (s, u0, v0) := (src[..], u[..], v[..]);
    var i := top;
    RoomGrows(c, top, c.Last());
    while i < h - bottom
      invariant top <= i <= h - bottom && src[..] == s && Room(c, i) <= Room(c, c.Last())
      invariant u[..] == Plane(c, s, 0, u0, i) && v[..] == Plane(c, s, 1, v0, i)
    {
      RoomGrows(c, i + 1, c.Last());
      RowStarts(c, i);
      ghost var job := SplitJob(c, s, i, u[..], v[..]);
      NothingFilled(u, v, src, job);
      var linearOffset := c.Width() * (i - top) / 2;
      if c.Width() >= 256 {
        SplitRowWide(c, u, v, src, i, linearOffset, job);
      } else if c.Width() >= 64 {
        SplitRowMedium(c, u, v, src, i, linearOffset, job);
      } else {
        SplitRowNarrow(c, u, v, src, i, linearOffset, job);
      }
      RowFilled(u, v, src, job);
      i := i + 1;
    }
  }

  // ----- When the planes are halves of the window -------------------------

  /** Windows of whole pairs of which no memcpy takes half a pair. */
  predicate EvenCrop(c: Crop)
    requires c.Valid()
  {
    c.Width() % 2 == 0 && (c.left % 2 == 0 || c.Narrow())
  }

  /** The first or the second bytes of all pairs. */
  function Half(side: nat, s: seq<byte>): seq<byte> { if side == 0 then Evens(s) else Odds(s) }

  lemma EvenPairs(c: Crop)
    requires c.Valid() && EvenCrop(c)
    ensures Slots(c) == c.Width() / 2
    ensures forall k: nat {:trigger PairColumn(c, k)} | k < Slots(c) :: PairColumn(c, k) == Some(c.left + 2 * k)
  {
    if !c.Narrow() {
      LeftParts(c.left);
    }
  }

  lemma EvenRow(c: Crop, s: seq<byte>, y: nat, side: nat, p: seq<byte>)
    requires c.Valid() && c.Readable(s) && EvenCrop(c) && c.top <= y < c.h && side <= 1 && Start(c, y) + Slots(c) <= |p|
    ensures Slots(c) == c.Width() / 2
    ensures PutSlots(c, s, y, side, p, Slots(c)) ==
            p[..Start(c, y)] + Half(side, OutRow(c, s, y)) + p[Start(c, y) + c.Width() / 2..]
  {
    hide OutByte, PairColumn, Slots, Start, Crop.Readable;
    EvenPairs(c);
    var (row, half) := (OutRow(c, s, y), Half(side, OutRow(c, s, y)));
    forall k: nat {:trigger PairColumn(c, k)} | k < c.Width() / 2
      ensures half[k] == OutByte(c, s, PairColumn(c, k).value + side, y)
    {
      assert half[k] == row[2 * k + side];
    }
  }

  /** Then each plane is that half of what csc_tiled_to_linear_crop puts out, and nothing else changes. */
  lemma {:induction false} EvenPlane(c: Crop, s: seq<byte>, side: nat, p: seq<byte>, i: nat)
    requires c.Valid() && c.Readable(s) && EvenCrop(c) && c.top <= i <= c.Last() && side <= 1 && Room(c, i) <= |p|
    ensures Start(c, i) == |Half(side, Output(c, s, i))| == Room(c, i)
    ensures Plane(c, s, side, p, i) == Half(side, Output(c, s, i)) + p[Start(c, i)..]
    decreases i
  {
    hide OutRow, PutSlots, Slots, Evens, Odds, Crop.Readable;
    EvenLength(c, s, i, side);
    if i > c.top {
      var (n, m) := (Start(c, i - 1), c.Width() / 2);
      RoomGrows(c, i - 1, i);
      EvenLength(c, s, i - 1, side);
      EvenPlane(c, s, side, p, i - 1);
      var before := Plane(c, s, side, p, i - 1);
      EvenRow(c, s, i - 1, side, before);
      RowHalf(c, s, i, side);
      assert before[n + m..] == p[n..][m..] == p[n + m..];
    } else {
      NoHalf(side);
    }
  }

  /** The room needed is half the window. */
  lemma EvenRoom(c: Crop, i: nat)
    requires c.Valid() && EvenCrop(c) && c.top <= i
    ensures Room(c, i) == Start(c, i) && 2 * Start(c, i) == c.Width() * (i - c.top)
  {
    EvenProduct(c.Width(), i - c.top);
    if i > c.top {
      hide Slots, PairColumn;
      EvenPairs(c);
      EvenProduct(c.Width(), i - 1 - c.top);
      assert c.Width() * (i - c.top) == c.Width() * (i - 1 - c.top) + c.Width();
    }
  }

  lemma NoHalf(side: nat)
    ensures Half(side, []) == []
  {}

  lemma EvenLength(c: Crop, s: seq<byte>, i: nat, side: nat)
    requires c.Valid() && c.Readable(s) && EvenCrop(c) && c.top <= i <= c.Last() && side <= 1
    ensures |Output(c, s, i)| == 2 * Start(c, i) && |Half(side, Output(c, s, i))| == Start(c, i)
    ensures i > c.top ==> Start(c, i) == Start(c, i - 1) + c.Width() / 2
  {
    hide Output, Crop.Readable;
    OutputLength(c, s, i);
    EvenProduct(c.Width(), i - c.top);
    if i > c.top {
      EvenProduct(c.Width(), i - 1 - c.top);
      assert c.Width() * (i - c.top) == c.Width() * (i - 1 - c.top) + c.Width();
    }
  }

  lemma EvenProduct(w: nat, k: nat)
    requires w % 2 == 0
    ensures w * k % 2 == 0 && w * k >= 0
  {
    var m := w / 2;
    assert w * k == 2 * (m * k) by { assert w == 2 * m; }
    MulMono(0, w, k);
  }

  lemma RowHalf(c: Crop, s: seq<byte>, i: nat, side: nat)
    requires c.Valid() && c.Readable(s) && EvenCrop(c) && c.top < i <= c.Last() && side <= 1
    ensures Half(side, Output(c, s, i)) == Half(side, Output(c, s, i - 1)) + Half(side, OutRow(c, s, i - 1))
  {
    hide OutRow, Evens, Odds, Crop.Readable;
    OutputLength(c, s, i - 1);
    EvenProduct(c.Width(), i - 1 - c.top);
    DeinterleaveAppend(Output(c, s, i - 1), OutRow(c, s, i - 1));
  }

  /** From the tiled plane s the planes u and v get the first and the second bytes of the window. */
  ghost predicate SplitsWindow(c: Crop, s: seq<byte>, u: seq<byte>, v: seq<byte>)
    requires c.Valid() && c.Readable(s) && Room(c, c.Last()) <= |u| && Room(c, c.Last()) <= |v|
    requires Start(c, c.Last()) <= |u| && Start(c, c.Last()) <= |v|
  {
    var (n, window) := (Start(c, c.Last()), Window(s, c.w, c.h, c.left, c.End(), c.top, c.Last()));
    Plane(c, s, 0, u, c.Last())[..n] == Evens(window) && Plane(c, s, 1, v, c.Last())[..n] == Odds(window)
  }

  /** A place of the first row that no pair goes to. */
  ghost predicate Unfilled(c: Crop, k: nat)
    requires c.Valid()
  {
    k < c.Width() / 2 && (k < Slots(c) ==> PairColumn(c, k) == None)
  }

  /** When the first memcpy of a row ends on half a pair, a wide row skips a place and a medium one comes up short. */
  lemma HalfPairSkips(c: Crop) returns (k: nat)
    requires c.Valid() && c.Width() % 2 == 0 && !EvenCrop(c)
    ensures Unfilled(c, k)
  {
    k := if c.Width() >= 256 then Head(c) else Slots(c);
    var t := c.left % 64;
    LeftParts(c.left);
    HalfOfEnd(c.End() - BlockEnd(c), t, c.Width());
  }

  lemma HalfOfEnd(rest: int, t: nat, width: nat)
    requires t < 64 && t % 2 == 1 && width % 2 == 0 && rest == width - (64 - t)
    ensures (64 - t) / 2 + rest / 2 == width / 2 - 1
  {
    var (a, b) := (t / 2, width / 2);
    assert t == 2 * a + 1 && width == 2 * b;
    Parts(64 - t, 2, 31 - a, 1);
    assert rest == 2 * (b - 32 + a) + 1;
  }

  lemma {:induction false} UnfilledStays(c: Crop, s: seq<byte>, side: nat, p: seq<byte>, i: nat, k: nat)
    requires c.Valid() && c.Readable(s) && c.Width() % 2 == 0 && c.top <= i <= c.Last() && side <= 1
    requires Room(c, i) <= |p| && k < |p| && Unfilled(c, k)
    ensures Plane(c, s, side, p, i)[k] == p[k]
    decreases i
  {
    hide OutByte, PairColumn, Slots, Crop.Readable;
    if i > c.top {
      RoomGrows(c, i - 1, i);
      UnfilledStays(c, s, side, p, i - 1, k);
      if i - 1 == c.top {
        assert Start(c, i - 1) == 0;
      } else {
        MulMono(1, i - 1 - c.top, c.Width());
        HalfMono(c.Width(), c.Width() * (i - 1 - c.top));
      }
    }
  }

  /** So there are planes that go on showing what they showed before. */
  lemma HalfPairShows(c: Crop) returns (s: seq<byte>, u: seq<byte>, v: seq<byte>)
    requires c.Valid() && c.Height() > 0 && c.Width() % 2 == 0 && !EvenCrop(c)
    ensures c.Readable(s) && Room(c, c.Last()) <= |u| && Room(c, c.Last()) <= |v|
    ensures Start(c, c.Last()) <= |u| && Start(c, c.Last()) <= |v| && !SplitsWindow(c, s, u, v)
  {
    hide Addr, TiledSize, Window, Plane, Room, Unfilled, PairColumn, Slots;
    var k := HalfPairSkips(c);
    s := seq(TiledSize(c.w, c.h) + 64, i => 0);
    var window := Window(s, c.w, c.h, c.left, c.End(), c.top, c.Last());
    WindowLength(s, c.w, c.h, c.left, c.End(), c.top, c.Last());
    FirstRowFits(c, k);
    var n := Start(c, c.Last());
    u := seq(Room(c, c.Last()) + n, q requires 0 <= q => if q < |Evens(window)| && Evens(window)[q] == 0 then 1 else 0);
    v := u;
    UnfilledStays(c, s, 0, u, c.Last(), k);
    assert Plane(c, s, 0, u, c.Last())[..n][k] == u[k] != Evens(window)[k];
  }

  lemma FirstRowFits(c: Crop, k: nat)
    requires c.Valid() && c.Height() > 0 && Unfilled(c, k)
    ensures k < Start(c, c.Last()) && 0 <= c.Width() * c.Height()
  {
    hide PairColumn, Slots;
    MulMono(1, c.Height(), c.Width());
    HalfMono(c.Width(), c.Width() * c.Height());
  }

  /** The column before the end of the first block is then in neither plane. */
  lemma HalfPairLosesColumn(c: Crop, k: nat)
    requires c.Valid() && !c.Narrow() && c.left % 2 == 1 && k < Slots(c) && PairColumn(c, k).Some?
    ensures BlockEnd(c) - 1 != PairColumn(c, k).value && BlockEnd(c) - 1 != PairColumn(c, k).value + 1
  {
    LeftParts(c.left);
  }

  /** Windows of an even width are taken apart right, from every tiled plane, exactly when csc_tiled_to_linear_crop cuts
      them out cleanly and no memcpy takes half a pair. */
  lemma SplitIsExact(c: Crop)
    requires c.Valid() && c.Height() > 0 && c.Width() % 2 == 0
    ensures CutsCleanly(c) && EvenCrop(c) <==>
            forall s: seq<byte>, u: seq<byte>, v: seq<byte> |
              && c.Readable(s) && Room(c, c.Last()) <= |u| && Room(c, c.Last()) <= |v|
              && Start(c, c.Last()) <= |u| && Start(c, c.Last()) <= |v| :: SplitsWindow(c, s, u, v)
  {
    hide SplitsWindow, Room, Start, CutsCleanly, Crop.Readable;
    if !EvenCrop(c) {
      var s, u, v := HalfPairShows(c);
    } else if CutsCleanly(c) {
      forall s: seq<byte>, u: seq<byte>, v: seq<byte> |
        && c.Readable(s) && Room(c, c.Last()) <= |u| && Room(c, c.Last()) <= |v|
        && Start(c, c.Last()) <= |u| && Start(c, c.Last()) <= |v|
        ensures SplitsWindow(c, s, u, v)
      {
        EvenSplits(c, s, u, v);
        OutputIsWindow(c, s, c.Last());
      }
    } else {
      var s, x, y := WrongPixel(c);
      var p := seq(Room(c, c.Last()) + Start(c, c.Last()), k => 0);
      EvenSplits(c, s, p, p);
      WrongWindow(c, s, x, y);
    }
  }

  lemma WrongWindow(c: Crop, s: seq<byte>, x: nat, y: nat)
    requires c.Valid() && c.Readable(s) && c.left <= x < c.End() && c.top <= y < c.Last()
    requires OutRow(c, s, y)[x - c.left] != Pixel(s, c.w, c.h, x, y)
    ensures Output(c, s, c.Last()) != Window(s, c.w, c.h, c.left, c.End(), c.top, c.Last())
  {
    hide OutRow, Pixel, TiledSize, Crop.PastStrip, Crop.SplitsPair, Output, Window;
    OutputAt(c, s, c.Last(), y, x - c.left);
    WindowAt(s, c.w, c.h, c.left, c.End(), c.top, c.Last(), x, y);
  }

  lemma EvenSplits(c: Crop, s: seq<byte>, u: seq<byte>, v: seq<byte>)
    requires c.Valid() && c.Readable(s) && EvenCrop(c) && Room(c, c.Last()) <= |u| && Room(c, c.Last()) <= |v|
    requires Start(c, c.Last()) <= |u| && Start(c, c.Last()) <= |v|
    ensures SplitsWindow(c, s, u, v) <==> Output(c, s, c.Last()) == Window(s, c.w, c.h, c.left, c.End(), c.top, c.Last())
  {
    hide Addr, Row, OutRow, TiledSize, Output, Window, Plane, Evens, Odds, Room, Crop.PastStrip, Crop.SplitsPair;
    var (out, window) := (Output(c, s, c.Last()), Window(s, c.w, c.h, c.left, c.End(), c.top, c.Last()));
    EvenPlane(c, s, 0, u, c.Last());
    EvenPlane(c, s, 1, v, c.Last());
    OutputLength(c, s, c.Last());
    WindowLength(s, c.w, c.h, c.left, c.End(), c.top, c.Last());
    EvenProduct(c.Width(), c.Height());
    DeinterleaveRoundTrip(out);
    DeinterleaveRoundTrip(window);
  }

  /** An odd left edge: the plain converter cuts the window out, this one does not take it apart, at 64 columns and at 256;
      below 64 columns it does. */
  lemma SplitExamples()
    ensures CutsCleanly(Crop(130, 2, 1, 0, 65, 0)) && !EvenCrop(Crop(130, 2, 1, 0, 65, 0))
    ensures CutsCleanly(Crop(640, 32, 33, 0, 95, 0)) && !EvenCrop(Crop(640, 32, 33, 0, 95, 0))
    ensures CutsCleanly(Crop(640, 32, 33, 0, 589, 0)) && EvenCrop(Crop(640, 32, 33, 0, 589, 0))
  {}
}
