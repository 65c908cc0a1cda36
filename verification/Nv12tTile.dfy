/** csc_linear_to_tiled_crop and csc_linear_to_tiled_interleave_crop: three passes over whole blocks,
    whole strips and single byte pairs, which together write every pixel of the cropped picture to
    its own address and touch nothing else. */
module Nv12tTile {
  import opened Bytes
  import opened Nv12tLayout
  import opened Nv12tUntile
  import UV = Nv12tUntileUV
  import opened Progress

  // ----- What tiling means ------------------------------------------------

  /** A picture in linear order: one plane, or two chroma planes to be interleaved. Pixel (0, 0) of
      the picture is at column left of row top of the planes. */
  datatype Picture =
    | Plane(src: seq<byte>, stride: nat, left: nat, top: nat)
    | Chroma(u: seq<byte>, v: seq<byte>, stride: nat, left: nat, top: nat)
  {
    /** Where row y of the picture starts. */
    function RowStart(y: nat): nat {
      MulMono(0, stride, y + top);
      left + stride * (y + top)
    }

    /** The planes hold a picture of w columns and h rows; chroma rows hold w / 2 samples. */
    predicate Covers(w: nat, h: nat) {
      if Plane? then h > 0 ==> RowStart(h - 1) + w <= |src|
      else w % 2 == 0 && (h > 0 ==> RowStart(h - 1) + w / 2 <= |u| && RowStart(h - 1) + w / 2 <= |v|)
    }

    lemma RowCovered(w: nat, h: nat, y: nat)
      requires Covers(w, h) && y < h
      ensures RowStart(y) <= RowStart(h - 1)
    {
      assert stride * (h - 1 + top) == stride * (y + top) + stride * (h - 1 - y);
      MulMono(0, stride, h - 1 - y);
    }

    function At(w: nat, h: nat, x: nat, y: nat): byte
      requires Covers(w, h) && x < w && y < h
    {
      RowCovered(w, h, y);
      if Plane? then src[RowStart(y) + x]
      else if x % 2 == 0 then u[RowStart(y) + x / 2]
      else v[RowStart(y) + x / 2]
    }

    /** The first rows of the picture, row after row. */
    function Linear(w: nat, h: nat, rows: nat): seq<byte>
      requires Covers(w, h) && rows <= h
    {
      if rows == 0 then [] else
      Linear(w, h, rows - 1) + seq(w, x requires 0 <= x < w => At(w, h, x, rows - 1))
    }
  }

  /** The buffer d with the w-by-h picture tiled into it. */
  function Tiled(d: seq<byte>, pic: Picture, w: nat, h: nat): seq<byte>
    requires w > 0 && pic.Covers(w, h) && TiledSize(w, h) <= |d|
  {
    seq(|d|, a requires 0 <= a < |d| =>
      if a < TiledSize(w, h) && PixelX(w, h, a) < w && PixelY(w, h, a) < h
      then pic.At(w, h, PixelX(w, h, a), PixelY(w, h, a)) else d[a])
  }

  // ----- Round trips ------------------------------------------------------

  lemma TiledPixel(d: seq<byte>, pic: Picture, w: nat, h: nat, x: nat, y: nat)
    requires x < w && y < h && pic.Covers(w, h) && TiledSize(w, h) <= |d|
    ensures Pixel(Tiled(d, pic, w, h), w, h, x, y) == pic.At(w, h, x, y)
  {
    hide Addr, PixelX, PixelY, Cols, Rows, Picture.At, Picture.Covers;
    PlaneFits(w, h);
    AddrThenInverse(w, h, x, y);
  }

  /** Tiling a picture and untiling it gives the picture back, whatever the buffer held before. */
  lemma {:induction false} TileThenUntile(d: seq<byte>, pic: Picture, w: nat, h: nat, rows: nat)
    requires w > 0 && rows <= h && pic.Covers(w, h) && TiledSize(w, h) <= |d|
    ensures Window(Tiled(d, pic, w, h), w, h, 0, w, 0, rows) == pic.Linear(w, h, rows)
  {
    if rows > 0 {
      TileThenUntile(d, pic, w, h, rows - 1);
      TileThenUntileRow(d, pic, w, h, rows - 1);
    }
  }

  lemma TileThenUntileRow(d: seq<byte>, pic: Picture, w: nat, h: nat, y: nat)
    requires w > 0 && y < h && pic.Covers(w, h) && TiledSize(w, h) <= |d|
    ensures Row(Tiled(d, pic, w, h), w, h, y, 0, w) == seq(w, x requires 0 <= x < w => pic.At(w, h, x, y))
  {
    hide Addr, Pixel, Tiled, Picture.At, Picture.Covers, TiledSize;
    var t := Tiled(d, pic, w, h);
    TiledLength(d, pic, w, h);
    forall x: nat | x < w
      ensures Row(t, w, h, y, 0, w)[x] == pic.At(w, h, x, y)
    {
      TiledPixel(d, pic, w, h, x, y);
      assert Row(t, w, h, y, 0, w)[x] == Pixel(t, w, h, 0 + x, y);
    }
  }

  lemma TiledLength(d: seq<byte>, pic: Picture, w: nat, h: nat)
    requires w > 0 && pic.Covers(w, h) && TiledSize(w, h) <= |d|
    ensures |Tiled(d, pic, w, h)| == |d|
  {
    hide PixelX, PixelY, Picture.At, Picture.Covers, TiledSize;
  }

  /** The linear order of an uncropped plane is the plane itself. */
  lemma {:induction false} WholePlane(src: seq<byte>, w: nat, h: nat, rows: nat)
    requires Plane(src, w, 0, 0).Covers(w, h) && rows <= h
    ensures 0 <= w * rows <= |src| && Plane(src, w, 0, 0).Linear(w, h, rows) == src[..w * rows]
  {
    var pic := Plane(src, w, 0, 0);
    if rows > 0 {
      WholePlane(src, w, h, rows - 1);
      pic.RowCovered(w, h, rows - 1);
      var k := pic.RowStart(rows - 1);
      assert w * rows == k + w;
      assert seq(w, x requires 0 <= x < w => pic.At(w, h, x, rows - 1)) == src[k..k + w];
    }
  }

  /** The linear order of two uncropped chroma planes is their interleaving. */
  lemma {:induction false} WholeChroma(u: seq<byte>, v: seq<byte>, w: nat, h: nat, rows: nat)
    requires Chroma(u, v, w / 2, 0, 0).Covers(w, h) && rows <= h
    ensures 0 <= w / 2 * rows <= |u| && w / 2 * rows <= |v|
    ensures Chroma(u, v, w / 2, 0, 0).Linear(w, h, rows) == Interleave(u[..w / 2 * rows], v[..w / 2 * rows])
  {
    hide Picture.At, Interleave;
    var pic := Chroma(u, v, w / 2, 0, 0);
    if rows > 0 {
      WholeChroma(u, v, w, h, rows - 1);
      var (m, k) := (w / 2, pic.RowStart(rows - 1));
      assert m * rows == k + m && m * (rows - 1) == k;
      ChromaRow(u, v, w, h, rows - 1);
      InterleaveAppend(u[..k], v[..k], u[k..k + m], v[k..k + m]);
      assert u[..k] + u[k..k + m] == u[..k + m] && v[..k] + v[k..k + m] == v[..k + m];
    } else {
      assert Interleave([], []) == [] by { InterleaveNothing(); }
    }
  }

  lemma InterleaveNothing()
    ensures Interleave([], []) == []
  {}

  lemma ChromaRow(u: seq<byte>, v: seq<byte>, w: nat, h: nat, y: nat)
    requires Chroma(u, v, w / 2, 0, 0).Covers(w, h) && y < h
    ensures var (pic, m) := (Chroma(u, v, w / 2, 0, 0), w / 2);
            var k := pic.RowStart(y);
            && k + m <= |u| && k + m <= |v|
            && seq(w, x requires 0 <= x < w => pic.At(w, h, x, y)) == Interleave(u[k..k + m], v[k..k + m])
  {
    hide Picture.RowStart;
    Chroma(u, v, w / 2, 0, 0).RowCovered(w, h, y);
  }

  lemma InterleaveAppend(a: seq<byte>, b: seq<byte>, c: seq<byte>, d: seq<byte>)
    requires |a| == |b| && |c| == |d|
    ensures Interleave(a + c, b + d) == Interleave(a, b) + Interleave(c, d)
  {
    var (l, r) := (Interleave(a + c, b + d), Interleave(a, b) + Interleave(c, d));
    forall k | 0 <= k < |l|
      ensures l[k] == r[k]
    {
      if k >= 2 * |a| {
        assert k / 2 == |a| + (k - 2 * |a|) / 2 && k % 2 == (k - 2 * |a|) % 2;
      }
    }
  }

  /** Where a pixel of the cropped picture comes from: the planes are cropped at the left and the top, chroma planes by
      half as much at the left. */
  lemma CroppedPixel(d: seq<byte>, src: seq<byte>, stride: nat, left: nat, top: nat, w: nat, h: nat, x: nat, y: nat)
    requires x < w && y < h && Plane(src, stride, left, top).Covers(w, h) && TiledSize(w, h) <= |d|
    ensures 0 <= left + x + stride * (top + y) < |src|
    ensures Pixel(Tiled(d, Plane(src, stride, left, top), w, h), w, h, x, y) == src[left + x + stride * (top + y)]
  {
    var pic := Plane(src, stride, left, top);
    pic.RowCovered(w, h, y);
    hide Pixel, Tiled, TiledSize;
    TiledPixel(d, pic, w, h, x, y);
  }

  lemma CroppedChroma(d: seq<byte>, u: seq<byte>, v: seq<byte>, stride: nat, left: nat, top: nat, w: nat, h: nat,
                      x: nat, y: nat)
    requires 2 * x + 1 < w && y < h && Chroma(u, v, stride, left, top).Covers(w, h) && TiledSize(w, h) <= |d|
    ensures 0 <= left + x + stride * (top + y) < |u| && left + x + stride * (top + y) < |v|
    ensures var t := Tiled(d, Chroma(u, v, stride, left, top), w, h);
            |t| == |d| && Pixel(t, w, h, 2 * x, y) == u[left + x + stride * (top + y)]
                       && Pixel(t, w, h, 2 * x + 1, y) == v[left + x + stride * (top + y)]
  {
    hide Pixel, Tiled, TiledSize, Picture.At, Picture.RowStart;
    var pic := Chroma(u, v, stride, left, top);
    TiledLength(d, pic, w, h);
    ChromaAt(u, v, stride, left, top, w, h, x, y);
    hide Picture.Covers;
    TiledPixel(d, pic, w, h, 2 * x, y);
    TiledPixel(d, pic, w, h, 2 * x + 1, y);
  }

  lemma ChromaAt(u: seq<byte>, v: seq<byte>, stride: nat, left: nat, top: nat, w: nat, h: nat, x: nat, y: nat)
    requires 2 * x + 1 < w && y < h && Chroma(u, v, stride, left, top).Covers(w, h)
    ensures 0 <= left + x + stride * (top + y) < |u| && left + x + stride * (top + y) < |v|
    ensures var pic := Chroma(u, v, stride, left, top);
            && pic.At(w, h, 2 * x, y) == u[left + x + stride * (top + y)]
            && pic.At(w, h, 2 * x + 1, y) == v[left + x + stride * (top + y)]
  {
    var pic := Chroma(u, v, stride, left, top);
    pic.RowCovered(w, h, y);
    assert pic.RowStart(y) == left + stride * (top + y);
    hide Picture.RowStart;
  }

  /** No byte but the pixels' changes. */
  lemma TiledFrame(d: seq<byte>, pic: Picture, w: nat, h: nat, a: nat)
    requires w > 0 && pic.Covers(w, h) && TiledSize(w, h) <= |d| && a < |d|
    requires forall x: nat, y: nat {:trigger Addr(w, h, x, y)} | x < w && y < h :: Addr(w, h, x, y) != a
    ensures Tiled(d, pic, w, h)[a] == d[a]
  {
    hide Addr, PixelX, PixelY, Cols, Rows, Picture.At, Picture.Covers;
    if a < TiledSize(w, h) {
      InverseThenAddr(w, h, a);
    }
  }

  /** csc_linear_to_tiled_crop, then csc_tiled_to_linear_crop: every byte of the plane comes back. */
  lemma PlaneRoundTrip(d: seq<byte>, src: seq<byte>, w: nat, h: nat)
    requires w > 0 && 0 <= w * h <= |src| && TiledSize(w, h) <= |d|
    ensures Plane(src, w, 0, 0).Covers(w, h)
    ensures Window(Tiled(d, Plane(src, w, 0, 0), w, h), w, h, 0, w, 0, h) == src[..w * h]
  {
    if h > 0 {
      assert w * h == w * (h - 1) + w;
    }
    TileThenUntile(d, Plane(src, w, 0, 0), w, h, h);
    WholePlane(src, w, h, h);
  }

  /** csc_linear_to_tiled_interleave_crop, then csc_tiled_to_linear_deinterleave_crop gives back both
      chroma planes; csc_tiled_to_linear_crop instead gives their interleaving. */
  lemma ChromaRoundTrip(d: seq<byte>, u: seq<byte>, v: seq<byte>, w: nat, h: nat)
    requires w > 0 && w % 2 == 0 && 0 <= w / 2 * h <= |u| && w / 2 * h <= |v| && TiledSize(w, h) <= |d|
    ensures Chroma(u, v, w / 2, 0, 0).Covers(w, h)
    ensures var (t, n) := (Tiled(d, Chroma(u, v, w / 2, 0, 0), w, h), w / 2 * h);
            && |t| == |d|
            && Window(t, w, h, 0, w, 0, h) == Interleave(u[..n], v[..n])
            && Evens(Window(t, w, h, 0, w, 0, h)) == u[..n]
            && Odds(Window(t, w, h, 0, w, 0, h)) == v[..n]
  {
    hide Addr, TiledSize, Tiled, Window, Evens, Odds, Interleave;
    if h > 0 {
      assert w / 2 * h == w / 2 * (h - 1) + w / 2;
    }
    var pic := Chroma(u, v, w / 2, 0, 0);
    TiledLength(d, pic, w, h);
    TileThenUntile(d, pic, w, h, h);
    WholeChroma(u, v, w, h, h);
    InterleaveRoundTrip(u[..w / 2 * h], v[..w / 2 * h]);
  }

  // ----- Writing rows of a block ------------------------------------------

  /** Rows y .. y + rows of columns x .. x + n of the picture have been written over before. */
  ghost predicate RowsWritten(d: seq<byte>, before: seq<byte>, pic: Picture, w: nat, h: nat,
                              x: nat, n: nat, y: nat, rows: nat)
    requires w > 0 && pic.Covers(w, h) && x + n <= w && y + rows <= h && TiledSize(w, h) <= |before|
  {
    && |d| == |before|
    && forall a {:trigger d[a]} | 0 <= a < |d| ::
         d[a] == if a < TiledSize(w, h) && x <= PixelX(w, h, a) < x + n && y <= PixelY(w, h, a) < y + rows
                 then pic.At(w, h, PixelX(w, h, a), PixelY(w, h, a)) else before[a]
  }

  /** Inside a strip, address and column go together. */
  lemma StripAddresses(w: nat, h: nat, x: nat, n: nat, y: nat, a: nat)
    requires w > 0 && 0 < n && x + n <= w && y < h && x % 64 + n <= 64 && a < TiledSize(w, h)
    ensures var s := Addr(w, h, x, y);
            && s + n <= TiledSize(w, h)
            && (s <= a < s + n <==> PixelY(w, h, a) == y && x <= PixelX(w, h, a) < x + n)
            && (s <= a < s + n ==> PixelX(w, h, a) == x + (a - s))
  {
    hide Addr, PixelX, PixelY, Cols, Rows, TiledSize;
    PlaneFits(w, h);
    AddrThenInverse(w, h, x, y);
    InverseThenAddr(w, h, a);
    var s := Addr(w, h, x, y);
    if s <= a < s + n {
      StripIsContiguous(w, h, x, y, a - s);
      AddrThenInverse(w, h, x + (a - s), y);
    }
    if PixelY(w, h, a) == y && x <= PixelX(w, h, a) < x + n {
      StripIsContiguous(w, h, x, y, PixelX(w, h, a) - x);
    }
  }

  lemma StripFits(w: nat, h: nat, x: nat, n: nat, y: nat)
    requires 0 < n && x + n <= w && y < h && x % 64 + n <= 64
    ensures Addr(w, h, x, y) + n <= TiledSize(w, h)
  {
    hide Addr, PixelX, PixelY, Cols, Rows, TiledSize;
    PlaneFits(w, h);
    AddrThenInverse(w, h, x, y);
  }

  lemma OneMoreRow(d: seq<byte>, d1: seq<byte>, before: seq<byte>, pic: Picture, w: nat, h: nat,
                   x: nat, n: nat, y: nat, rows: nat)
    requires w > 0 && pic.Covers(w, h) && 0 < n && x + n <= w && y + rows < h && TiledSize(w, h) <= |before|
    requires x % 64 + n <= 64
    requires RowsWritten(d, before, pic, w, h, x, n, y, rows)
    requires |d1| == |d| && Addr(w, h, x, y + rows) + n <= |d|
    requires forall k {:trigger d1[k]} | 0 <= k < |d| ::
               var s := Addr(w, h, x, y + rows);
               d1[k] == if s <= k < s + n then pic.At(w, h, x + (k - s), y + rows) else d[k]
    ensures RowsWritten(d1, before, pic, w, h, x, n, y, rows + 1)
  {
    hide Addr, PixelX, PixelY, TiledSize, Picture.At, Picture.Covers;
    StripFits(w, h, x, n, y + rows);
    forall a: nat | a < |d1|
      ensures d1[a] == if a < TiledSize(w, h) && x <= PixelX(w, h, a) < x + n && y <= PixelY(w, h, a) < y + rows + 1
                       then pic.At(w, h, PixelX(w, h, a), PixelY(w, h, a)) else before[a]
    {
      if a < TiledSize(w, h) {
        StripAddresses(w, h, x, n, y + rows, a);
      }
    }
  }

  lemma AddrBelow(w: nat, h: nat, x: nat, y: nat, r: nat)
    requires y % 32 + r < 32
    ensures Addr(w, h, x, y + r) == Addr(w, h, x, y) + 64 * r
  {
    hide Block;
    Parts(y + r, 32, y / 32, y % 32 + r);
  }

  /** A run of memcpys, one per row: n bytes to successive 64-byte strips of a block. */
  method PutRows(dst: array<byte>, off: nat, src: array<byte>, from: nat, stride: nat, rows: nat, n: nat,
                 ghost pic: Picture, ghost w: nat, ghost h: nat, ghost x: nat, ghost y: nat)
    requires dst != src && pic.Plane? && pic.src == src[..] && pic.stride == stride
    requires pic.Covers(w, h) && TiledSize(w, h) <= dst.Length
    requires 0 < n && x + n <= w && y + rows <= h && x % 64 + n <= 64 && y % 32 + rows <= 32
    requires off == Addr(w, h, x, y) && from == pic.RowStart(y) + x
    modifies dst
    ensures RowsWritten(dst[..], old(dst[..]), pic, w, h, x, n, y, rows)
  {
    hide Addr, PixelX, PixelY, TiledSize, RowsWritten, Picture.RowStart;
    ghost var before := dst[..];
    NoRows(before, pic, w, h, x, n, y);
    var r := 0;
    while r < rows
      invariant r <= rows && dst.Length == |before| && src[..] == pic.src
      invariant RowsWritten(dst[..], before, pic, w, h, x, n, y, r)
    {
      ghost var d := dst[..];
      AddrBelow(w, h, x, y, r);
      StripFits(w, h, x, n, y + r);
      pic.RowCovered(w, h, y + r);
      RowStartBelow(pic, y, r);
      MulMono(0, stride, r);
      Memcpy(dst, off + 64 * r, src, from + stride * r, n);
      Spliced(dst[..], d, off + 64 * r, src[from + stride * r..from + stride * r + n]);
      OneMoreRow(d, dst[..], before, pic, w, h, x, n, y, r);
      r := r + 1;
    }
  }

  lemma RowStartBelow(pic: Picture, y: nat, r: nat)
    ensures pic.RowStart(y + r) == pic.RowStart(y) + pic.stride * r
  {
    assert pic.stride * (y + r + pic.top) == pic.stride * (y + pic.top) + pic.stride * r;
  }

  lemma NoRows(d: seq<byte>, pic: Picture, w: nat, h: nat, x: nat, n: nat, y: nat)
    requires w > 0 && pic.Covers(w, h) && x + n <= w && y <= h && TiledSize(w, h) <= |d|
    ensures RowsWritten(d, d, pic, w, h, x, n, y, 0)
  {
    hide PixelX, PixelY, TiledSize, Picture.Covers;
  }

  // ----- Passes -----------------------------------------------------------

  /** The done part of the picture has been tiled into d, which was d0 before the first pass. */
  ghost predicate TiledUpTo(d: seq<byte>, d0: seq<byte>, pic: Picture, w: nat, h: nat, f: Front)
    requires w > 0 && pic.Covers(w, h) && TiledSize(w, h) <= |d0|
  {
    && |d| == |d0|
    && forall a {:trigger d[a]} | 0 <= a < |d| ::
         d[a] == if a < TiledSize(w, h) && PixelX(w, h, a) < w && PixelY(w, h, a) < h
                    && f.Done(PixelX(w, h, a), PixelY(w, h, a))
                 then pic.At(w, h, PixelX(w, h, a), PixelY(w, h, a)) else d0[a]
  }

  lemma BlockDone(d: seq<byte>, d1: seq<byte>, d0: seq<byte>, pic: Picture, w: nat, h: nat, f: Front, n: nat)
    requires w > 0 && pic.Covers(w, h) && TiledSize(w, h) <= |d0|
    requires f.x0 <= f.j && f.j + n <= f.x1 <= w && f.i + f.rows <= h
    requires TiledUpTo(d, d0, pic, w, h, f) && RowsWritten(d1, d, pic, w, h, f.j, n, f.i, f.rows)
    ensures TiledUpTo(d1, d0, pic, w, h, f.(j := f.j + n))
  {
    hide Addr, PixelX, PixelY, TiledSize, Picture.At, Picture.Covers;
  }

  /** Two fronts that have the same pixels of the picture behind them. */
  lemma SameFront(d: seq<byte>, d0: seq<byte>, pic: Picture, w: nat, h: nat, f: Front, g: Front)
    requires w > 0 && pic.Covers(w, h) && TiledSize(w, h) <= |d0| && TiledUpTo(d, d0, pic, w, h, f)
    requires forall x: nat, y: nat | x < w && y < h :: f.Done(x, y) == g.Done(x, y)
    ensures TiledUpTo(d, d0, pic, w, h, g)
  {
    hide Addr, PixelX, PixelY, TiledSize, Picture.At, Picture.Covers, Front.Done;
  }

  lemma NothingDone(d: seq<byte>, pic: Picture, w: nat, h: nat, f: Front)
    requires w > 0 && pic.Covers(w, h) && TiledSize(w, h) <= |d|
    requires f.x0 == 0 && f.i == 0 && f.j == 0
    ensures TiledUpTo(d, d, pic, w, h, f)
  {
    hide Addr, PixelX, PixelY, TiledSize, Picture.At, Picture.Covers;
  }

  lemma AllDone(d: seq<byte>, d0: seq<byte>, pic: Picture, w: nat, h: nat, f: Front)
    requires w > 0 && pic.Covers(w, h) && TiledSize(w, h) <= |d0| && TiledUpTo(d, d0, pic, w, h, f)
    requires f.x1 == w && f.i >= h
    ensures d == Tiled(d0, pic, w, h)
  {
    hide Addr, PixelX, PixelY, TiledSize, Picture.At, Picture.Covers;
  }

  lemma StepInStrip(j: nat, j1: nat, n: nat)
    requires n == 64 || n == 2
    requires j % n == 0 && j1 % n == 0 && j < j1
    ensures j % 64 + n <= 64 && j + n <= j1 && (j + n) % n == 0
  {}

  /** One row of blocks of a pass: columns j0 .. j1 in steps of n, rows at a time. */
  method PutBlocks(dst: array<byte>, src: array<byte>, w: nat, h: nat, left: nat, top: nat, stride: nat,
                   i: nat, rows: nat, j0: nat, j1: nat, n: nat, ghost d0: seq<byte>, ghost pic: Picture)
    requires dst != src && pic == Plane(src[..], stride, left, top) && w > 0 && pic.Covers(w, h)
    requires TiledSize(w, h) <= dst.Length == |d0|
    requires (n == 64 || n == 2) && j0 % n == 0 && j1 % n == 0 && j0 <= j1 <= w
    requires 0 < rows && i % 32 + rows <= 32 && i + rows <= h
    requires TiledUpTo(dst[..], d0, pic, w, h, Front(j0, j1, i, rows, j0))
    modifies dst
    ensures TiledUpTo(dst[..], d0, pic, w, h, Front(j0, j1, i + rows, rows, j0))
  {
    hide Addr, PixelX, PixelY, TiledSize, Picture.At, Picture.Covers, RowsWritten, TiledUpTo, Block;
    var j := j0;
    while j < j1
      invariant j0 <= j <= j1 && j % n == 0 && src[..] == pic.src
      invariant TiledUpTo(dst[..], d0, pic, w, h, Front(j0, j1, i, rows, j))
    {
      ghost var d := dst[..];
      StepInStrip(j, j1, n);
      var tiledOffset := BlockOffset(w, h, j / 64, i);
      tiledOffset := tiledOffset + 64 * (i % 32) + j % 64;
      assert tiledOffset == Addr(w, h, j, i) by { AddrIs(w, h, j, i); }
      MulMono(0, stride, i + top);
      var from := left + j + stride * (i + top);
      PutRows(dst, tiledOffset, src, from, stride, rows, n, pic, w, h, j, i);
      BlockDone(d, dst[..], d0, pic, w, h, Front(j0, j1, i, rows, j), n);
      j := j + n;
    }
    SameFront(dst[..], d0, pic, w, h, Front(j0, j1, i, rows, j), Front(j0, j1, i + rows, rows, j0));
  }

  lemma StepRows(i: nat, i1: nat, rows: nat)
    requires rows == 32 || rows == 2 || rows == 1
    requires i % rows == 0 && i1 % rows == 0 && i < i1
    ensures i % 32 + rows <= 32 && i + rows <= i1 && (i + rows) % rows == 0
  {}

  // ----- csc_linear_to_tiled_crop -----------------------------------------

  /** One pass: rows i0 .. i1 in steps of rows, columns j0 .. j1 in steps of n. */
  method PutPass(dst: array<byte>, src: array<byte>, w: nat, h: nat, left: nat, top: nat, stride: nat,
                 i0: nat, i1: nat, rows: nat, j0: nat, j1: nat, n: nat, ghost d0: seq<byte>, ghost pic: Picture)
    requires dst != src && pic == Plane(src[..], stride, left, top) && w > 0 && pic.Covers(w, h)
    requires TiledSize(w, h) <= dst.Length == |d0|
    requires (n == 64 || n == 2) && j0 % n == 0 && j1 % n == 0 && j0 <= j1 <= w
    requires (rows == 32 || rows == 2) && i0 % rows == 0 && i1 % rows == 0 && i0 <= i1 <= h
    requires TiledUpTo(dst[..], d0, pic, w, h, Front(j0, j1, i0, rows, j0))
    modifies dst
    ensures TiledUpTo(dst[..], d0, pic, w, h, Front(j0, j1, i1, rows, j0))
  {
    hide Addr, PixelX, PixelY, TiledSize, Picture.At, Picture.Covers, TiledUpTo, Tiled, Front.Done;
    var i := i0;
    while i < i1
      invariant i % rows == 0 && i0 <= i <= i1 && src[..] == pic.src
      invariant TiledUpTo(dst[..], d0, pic, w, h, Front(j0, j1, i, rows, j0))
    {
      StepRows(i, i1, rows);
      PutBlocks(dst, src, w, h, left, top, stride, i, rows, j0, j1, n, d0, pic);
      i := i + rows;
    }
  }

  /** csc_linear_to_tiled_crop: w and h are the size of the cropped picture, which is even both ways. */
  method LinearToTiledCrop(dst: array<byte>, src: array<byte>, width: nat, height: nat,
                           left: nat, top: nat, right: nat, bottom: nat)
    requires dst != src && left + right < width && top + bottom <= height
    requires (width - left - right) % 2 == 0 && (height - top - bottom) % 2 == 0
    requires Plane(src[..], width, left, top).Covers(width - left - right, height - top - bottom)
    requires TiledSize(width - left - right, height - top - bottom) <= dst.Length
    modifies dst
    ensures dst[..] == Tiled(old(dst[..]), Plane(src[..], width, left, top), width - left - right, height - top - bottom)
  {
    hide Addr, PixelX, PixelY, TiledSize, Picture.At, Picture.Covers, TiledUpTo, Tiled;
    var (w, h) := (width - left - right, height - top - bottom);
    var alignedYSize := h / 32 * 32;
    var alignedXSize := w / 64 * 64;
    Aligned(w, h);
    ghost var (d0, pic) := (dst[..], Plane(src[..], width, left, top));
    NothingDone(d0, pic, w, h, Front(0, alignedXSize, 0, 32, 0));
    PutPass(dst, src, w, h, left, top, width, 0, alignedYSize, 32, 0, alignedXSize, 64, d0, pic);
    SameFront(dst[..], d0, pic, w, h, Front(0, alignedXSize, alignedYSize, 32, 0), Front(0, alignedXSize, alignedYSize, 2, 0));
    PutPass(dst, src, w, h, left, top, width, alignedYSize, h, 2, 0, alignedXSize, 64, d0, pic);
    SameFront(dst[..], d0, pic, w, h, Front(0, alignedXSize, h, 2, 0), Front(alignedXSize, w, 0, 2, alignedXSize));
    PutPass(dst, src, w, h, left, top, width, 0, h, 2, alignedXSize, w, 2, d0, pic);
    AllDone(dst[..], d0, pic, w, h, Front(alignedXSize, w, h, 2, alignedXSize));
  }

  lemma Aligned(w: nat, h: nat)
    ensures w / 64 * 64 <= w && w / 64 * 64 % 64 == 0 && w / 64 * 64 % 2 == 0
    ensures h / 32 * 32 <= h && h / 32 * 32 % 32 == 0 && h / 32 * 32 % 2 == 0
  {
    var (p, q) := (w / 64, h / 32);
    Parts(p * 64, 64, p, 0);
    Parts(p * 64, 2, 32 * p, 0);
    Parts(q * 32, 32, q, 0);
    Parts(q * 32, 2, 16 * q, 0);
  }

  /** csc_linear_to_tiled_crop and then csc_tiled_to_linear on buffers: every byte of the plane comes back. */
  method TileAndUntile(back: array<byte>, tiled: array<byte>, src: array<byte>, w: nat, h: nat)
    requires tiled != src && back != tiled && back != src
    requires w > 0 && w % 2 == 0 && h % 2 == 0 && (w < 256 ==> h <= 16384)
    requires 0 <= w * h <= src.Length && w * h <= back.Length && TiledSize(w, h) <= tiled.Length
    modifies tiled, back
    ensures back[..w * h] == src[..w * h] && back[w * h..] == old(back[w * h..])
  {
    hide Addr, TiledSize, Tiled, Window, Picture.Covers;
    ghost var d := tiled[..];
    PlaneRoundTrip(d, src[..], w, h);
    LinearToTiledCrop(tiled, src, w, h, 0, 0, 0, 0);
    TiledToLinear(back, tiled, w, h);
    assert src[..][..w * h] == src[..w * h];
  }

  // ----- csc_linear_to_tiled_interleave_crop ------------------------------

  /** A run of csc_interleave_memcpys, one per row: n / 2 samples of each plane. */
  method PutChromaRows(dst: array<byte>, off: nat, u: array<byte>, v: array<byte>, from: nat, stride: nat,
                       rows: nat, n: nat, ghost pic: Picture, ghost w: nat, ghost h: nat, ghost x: nat, ghost y: nat)
    requires dst != u && dst != v && pic.Chroma? && pic.u == u[..] && pic.v == v[..] && pic.stride == stride
    requires pic.Covers(w, h) && TiledSize(w, h) <= dst.Length && n % 2 == 0 && x % 2 == 0
    requires 0 < n && x + n <= w && y + rows <= h && x % 64 + n <= 64 && y % 32 + rows <= 32
    requires off == Addr(w, h, x, y) && from == pic.RowStart(y) + x / 2
    modifies dst
    ensures RowsWritten(dst[..], old(dst[..]), pic, w, h, x, n, y, rows)
  {
    hide Addr, PixelX, PixelY, TiledSize, RowsWritten, Interleave, Picture.At, Picture.Covers;
    ghost var before := dst[..];
    NoRows(before, pic, w, h, x, n, y);
    var r := 0;
    while r < rows
      invariant r <= rows && dst.Length == |before| && u[..] == pic.u && v[..] == pic.v
      invariant RowsWritten(dst[..], before, pic, w, h, x, n, y, r)
    {
      ghost var d := dst[..];
      AddrBelow(w, h, x, y, r);
      StripFits(w, h, x, n, y + r);
      pic.RowCovered(w, h, y + r);
      RowStartBelow(pic, y, r);
      MulMono(0, stride, r);
      var k := from + stride * r;
      ChromaStrip(pic, w, h, x, n, y + r);
      InterleaveMemcpy(dst, off + 64 * r, u, v, k, n / 2);
      Spliced(dst[..], d, off + 64 * r, Interleave(pic.u[k..k + n / 2], pic.v[k..k + n / 2]));
      OneMoreRow(d, dst[..], before, pic, w, h, x, n, y, r);
      r := r + 1;
    }
  }

  lemma ChromaStrip(pic: Picture, w: nat, h: nat, x: nat, n: nat, y: nat)
    requires pic.Chroma? && pic.Covers(w, h) && x % 2 == 0 && n % 2 == 0 && x + n <= w && y < h
    ensures var k := pic.RowStart(y) + x / 2;
            && k + n / 2 <= |pic.u| && k + n / 2 <= |pic.v|
            && var s := Interleave(pic.u[k..k + n / 2], pic.v[k..k + n / 2]);
            && |s| == n && forall a | 0 <= a < n :: s[a] == pic.At(w, h, x + a, y)
  {
    hide Picture.RowStart;
    pic.RowCovered(w, h, y);
    assert (x + n) / 2 == x / 2 + n / 2 && (x + n) / 2 <= w / 2;
    forall a: nat | a < n
      ensures (x + a) % 2 == a % 2 && (x + a) / 2 == x / 2 + a / 2
    {
    }
  }

  method PutChromaBlocks(dst: array<byte>, u: array<byte>, v: array<byte>, w: nat, h: nat, left: nat, top: nat,
                         stride: nat, i: nat, rows: nat, j0: nat, j1: nat, n: nat,
                         ghost d0: seq<byte>, ghost pic: Picture)
    requires dst != u && dst != v && pic == Chroma(u[..], v[..], stride, left / 2, top) && w > 0 && pic.Covers(w, h)
    requires TiledSize(w, h) <= dst.Length == |d0|
    requires (n == 64 || n == 2) && j0 % n == 0 && j1 % n == 0 && j0 <= j1 <= w
    requires 0 < rows && i % 32 + rows <= 32 && i + rows <= h
    requires TiledUpTo(dst[..], d0, pic, w, h, Front(j0, j1, i, rows, j0))
    modifies dst
    ensures TiledUpTo(dst[..], d0, pic, w, h, Front(j0, j1, i + rows, rows, j0))
  {
    hide Addr, PixelX, PixelY, TiledSize, Picture.At, Picture.Covers, RowsWritten, TiledUpTo, Block;
    var j := j0;
    while j < j1
      invariant j0 <= j <= j1 && j % n == 0 && u[..] == pic.u && v[..] == pic.v
      invariant TiledUpTo(dst[..], d0, pic, w, h, Front(j0, j1, i, rows, j))
    {
      ghost var d := dst[..];
      StepInStrip(j, j1, n);
      EvenStep(j, n);
      var tiledOffset := BlockOffset(w, h, j / 64, i);
      tiledOffset := tiledOffset + 64 * (i % 32) + j % 64;
      assert tiledOffset == Addr(w, h, j, i) by { AddrIs(w, h, j, i); }
      MulMono(0, stride, i + top);
      var from := left / 2 + j / 2 + stride * (i + top);
      PutChromaRows(dst, tiledOffset, u, v, from, stride, rows, n, pic, w, h, j, i);
      BlockDone(d, dst[..], d0, pic, w, h, Front(j0, j1, i, rows, j), n);
      j := j + n;
    }
    SameFront(dst[..], d0, pic, w, h, Front(j0, j1, i, rows, j), Front(j0, j1, i + rows, rows, j0));
  }

  lemma EvenStep(j: nat, n: nat)
    requires (n == 64 || n == 2) && j % n == 0
    ensures j % 2 == 0
  {
    if n == 64 {
      assert j == 64 * (j / 64);
    }
  }

  lemma AddrIs(w: nat, h: nat, x: nat, y: nat)
    ensures Addr(w, h, x, y) == Block(HalfCols(w), Rows(h), x / 64, y / 32) * BLOCK_SIZE + 64 * (y % 32) + x % 64
  {}

  method PutChromaPass(dst: array<byte>, u: array<byte>, v: array<byte>, w: nat, h: nat, left: nat, top: nat,
                       stride: nat, i0: nat, i1: nat, rows: nat, j0: nat, j1: nat, n: nat,
                       ghost d0: seq<byte>, ghost pic: Picture)
    requires dst != u && dst != v && pic == Chroma(u[..], v[..], stride, left / 2, top) && w > 0 && pic.Covers(w, h)
    requires TiledSize(w, h) <= dst.Length == |d0|
    requires (n == 64 || n == 2) && j0 % n == 0 && j1 % n == 0 && j0 <= j1 <= w
    requires (rows == 32 || rows == 1) && i0 % rows == 0 && i1 % rows == 0 && i0 <= i1 <= h
    requires TiledUpTo(dst[..], d0, pic, w, h, Front(j0, j1, i0, rows, j0))
    modifies dst
    ensures TiledUpTo(dst[..], d0, pic, w, h, Front(j0, j1, i1, rows, j0))
  {
    hide Addr, PixelX, PixelY, TiledSize, Picture.At, Picture.Covers, TiledUpTo, Tiled, Front.Done;
    var i := i0;
    while i < i1
      invariant i % rows == 0 && i0 <= i <= i1 && u[..] == pic.u && v[..] == pic.v
      invariant TiledUpTo(dst[..], d0, pic, w, h, Front(j0, j1, i, rows, j0))
    {
      StepRows(i, i1, rows);
      PutChromaBlocks(dst, u, v, w, h, left, top, stride, i, rows, j0, j1, n, d0, pic);
      i := i + rows;
    }
  }

  /** csc_linear_to_tiled_interleave_crop: w and h are the size of the cropped picture in interleaved bytes. */
  method LinearToTiledInterleaveCrop(dst: array<byte>, u: array<byte>, v: array<byte>, width: nat, height: nat,
                                     left: nat, top: nat, right: nat, bottom: nat)
    requires dst != u && dst != v && left + right < width && top + bottom <= height
    requires Chroma(u[..], v[..], width / 2, left / 2, top).Covers(width - left - right, height - top - bottom)
    requires TiledSize(width - left - right, height - top - bottom) <= dst.Length
    modifies dst
    ensures dst[..] == Tiled(old(dst[..]), Chroma(u[..], v[..], width / 2, left / 2, top),
                             width - left - right, height - top - bottom)
  {
    hide Addr, PixelX, PixelY, TiledSize, Picture.At, TiledUpTo, Tiled, Picture.RowStart;
    var (w, h) := (width - left - right, height - top - bottom);
    var alignedYSize := h / 32 * 32;
    var alignedXSize := w / 64 * 64;
    Aligned(w, h);
    ghost var (d0, pic) := (dst[..], Chroma(u[..], v[..], width / 2, left / 2, top));
    NothingDone(d0, pic, w, h, Front(0, alignedXSize, 0, 32, 0));
    PutChromaPass(dst, u, v, w, h, left, top, width / 2, 0, alignedYSize, 32, 0, alignedXSize, 64, d0, pic);
    SameFront(dst[..], d0, pic, w, h, Front(0, alignedXSize, alignedYSize, 32, 0), Front(0, alignedXSize, alignedYSize, 1, 0));
    PutChromaPass(dst, u, v, w, h, left, top, width / 2, alignedYSize, h, 1, 0, alignedXSize, 64, d0, pic);
    SameFront(dst[..], d0, pic, w, h, Front(0, alignedXSize, h, 1, 0), Front(alignedXSize, w, 0, 1, alignedXSize));
    PutChromaPass(dst, u, v, w, h, left, top, width / 2, 0, h, 1, alignedXSize, w, 2, d0, pic);
    AllDone(dst[..], d0, pic, w, h, Front(alignedXSize, w, h, 1, alignedXSize));
  }

  /** csc_linear_to_tiled_interleave_crop and then csc_tiled_to_linear_deinterleave_crop on buffers: every byte of both
      chroma planes comes back. */
  method TileAndSplit(backU: array<byte>, backV: array<byte>, tiled: array<byte>, u: array<byte>, v: array<byte>,
                      w: nat, h: nat)
    requires tiled != u && tiled != v && backU != tiled && backV != tiled && backU != backV
    requires w > 0 && w % 2 == 0 && (w < 256 ==> h <= 16384) && TiledSize(w, h) <= tiled.Length
    requires 0 <= w / 2 * h <= u.Length && w / 2 * h <= v.Length && w / 2 * h <= backU.Length && w / 2 * h <= backV.Length
    modifies tiled, backU, backV
    ensures backU[..w / 2 * h] == old(u[..w / 2 * h]) && backV[..w / 2 * h] == old(v[..w / 2 * h])
    ensures backU[w / 2 * h..] == old(backU[w / 2 * h..]) && backV[w / 2 * h..] == old(backV[w / 2 * h..])
  {
    hide Addr, TiledSize, Tiled, Window, Picture.Covers, Output, Evens, Odds, Interleave, UV.Plane, UV.Room, UV.Start;
    ghost var (d, u0, v0) := (tiled[..], backU[..], backV[..]);
    ghost var c := Crop(w, h, 0, 0, 0, 0);
    WholeRoom(c);
    ChromaRoundTrip(d, u[..], v[..], w, h);
    LinearToTiledInterleaveCrop(tiled, u, v, w, h, 0, 0, 0, 0);
    ghost var t := tiled[..];
    UV.TiledToLinearDeinterleaveCrop(backU, backV, tiled, w, h, 0, 0, 0, 0);
    UV.EvenPlane(c, t, 0, u0, h);
    UV.EvenPlane(c, t, 1, v0, h);
    OutputIsWindow(c, t, h);
  }

  lemma WholeRoom(c: Crop)
    requires c.left == c.top == c.right == c.bottom == 0 && c.w % 2 == 0
    ensures UV.EvenCrop(c) && UV.Room(c, c.h) == UV.Start(c, c.h) == c.w / 2 * c.h
  {
    hide UV.Room, UV.Start;
    UV.EvenRoom(c, c.h);
    var m := c.w / 2;
    assert c.w * c.h == 2 * (m * c.h) by { assert c.w == 2 * m; }
  }
}
