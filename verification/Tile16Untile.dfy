/** csc_tiled_to_linear_y, csc_tiled_to_linear_uv and csc_tiled_to_linear_uv_deinterleave for the
    16-column tiles, and the word-walking Tile2D_To_YUV420. */
module Tile16Untile {
  import opened Bytes
  import opened Progress
  import opened Tile16Layout

  // ----- What untiling means ----------------------------------------------

  /** The samples of a w-by-h tiled plane: all bytes (scale 1), or the even or odd ones (scale 2). */
  datatype Samples = Samples(src: seq<byte>, th: nat, w: nat, h: nat, scale: nat, phase: nat) {
    predicate Valid() {
      && th > 0 && w > 0 && (scale == 1 || scale == 2) && phase < scale && w % scale == 0
      && PaddedSize(th, w, h) <= |src|
    }

    /** Samples in a row. */
    function Width(): (m: nat)
      requires Valid()
      ensures m > 0
    {
      if scale == 1 then w else w / 2
    }

    function Size(): nat
      requires Valid()
    {
      MulMono(0, Width(), h);
      Width() * h
    }

    function At(c: nat, r: nat): byte
      requires Valid() && c < Width() && r < h
    {
      assert scale * c + phase < w by {
        if scale == 2 { assert w == 2 * (w / 2); }
      }
      Readable(scale * c + phase, r);
      src[TileAddr(th, w, scale * c + phase, r)]
    }

    /** Samples c .. c + n of row r. */
    function Line(c: nat, n: nat, r: nat): (s: seq<byte>)
      requires Valid() && c + n <= Width() && r < h
      ensures |s| == n
    {
      seq(n, k requires 0 <= k < n => At(c + k, r))
    }

    lemma Readable(x: nat, y: nat)
      requires Valid() && x < w && y < h
      ensures TileAddr(th, w, x, y) < PaddedSize(th, w, h)
      ensures x < 16 * TilesX(w) && y < TilesY(th, h) * th
    {
      TilesAcross(w);
      RowsOfTiles(th, h);
      AddrThenInverse(th, w, h, x, y);
    }
  }

  /** The buffer d with the samples put at its start, in linear order. */
  function Untiled(d: seq<byte>, p: Samples): seq<byte>
    requires p.Valid() && p.Size() <= |d|
  {
    seq(|d|, k requires 0 <= k < |d| =>
      if k < p.Size() then
        InPlane(p, k);
        p.At(Mod(k, p.Width()), Div(k, p.Width()))
      else d[k])
  }

  lemma InPlane(p: Samples, k: nat)
    requires p.Valid() && k < p.Size()
    ensures Mod(k, p.Width()) < p.Width() && Div(k, p.Width()) < p.h
  {
    DivMod(k, p.Width());
    MulMono(p.h, Div(k, p.Width()), p.Width());
  }

  /** Sample (c, r) of the output: tiles of 16 columns and th rows lie one after the other, row by row of tiles. */
  lemma UntiledAt(d: seq<byte>, p: Samples, c: nat, r: nat)
    requires p.Valid() && p.Size() <= |d| && c < p.Width() && r < p.h
    ensures var (m, x) := (p.w / p.scale, p.scale * c + p.phase);
            var a := (r / p.th * ((p.w + 15) / 16) + x / 16) * (16 * p.th) + r % p.th * 16 + x % 16;
            && 0 <= r * m + c < |d| == |Untiled(d, p)| && 0 <= a < |p.src| && Untiled(d, p)[r * m + c] == p.src[a]
  {
    hide TileAddr, PaddedSize, Div, Mod;
    SampleSource(p, c, r);
    hide Samples.At;
    var (m, k) := (p.Width(), r * p.Width() + c);
    MulMono(0, r, m);
    MulMono(r + 1, p.h, m);
    assert (r + 1) * m == r * m + m;
    DivModUnique(k, m, r, c);
    assert Untiled(d, p)[k] == p.At(c, r);
  }

  lemma SampleSource(p: Samples, c: nat, r: nat)
    requires p.Valid() && c < p.Width() && r < p.h
    ensures p.Width() == p.w / p.scale
    ensures var x := p.scale * c + p.phase;
            var a := (r / p.th * ((p.w + 15) / 16) + x / 16) * (16 * p.th) + r % p.th * 16 + x % 16;
            0 <= a < |p.src| && p.At(c, r) == p.src[a]
  {
    var x := p.scale * c + p.phase;
    assert x < p.w by {
      if p.scale == 2 { assert p.w == 2 * (p.w / 2); }
    }
    p.Readable(x, r);
    DivIsDivision(r, p.th);
    DivIsDivision(x, 16);
    hide Div, Mod, PaddedSize;
  }

  /** The bytes behind it stay. */
  lemma UntiledFrame(d: seq<byte>, p: Samples, k: nat)
    requires p.Valid() && p.w / p.scale * p.h <= k < |d|
    ensures p.Size() <= |d| && Untiled(d, p)[k] == d[k]
  {
    hide TileAddr, PaddedSize, Div, Mod, Samples.At;
  }

  /** De-interleaving while untiling is untiling and then de-interleaving. */
  lemma UntileThenDeinterleave(d: seq<byte>, du: seq<byte>, dv: seq<byte>, src: seq<byte>, th: nat, w: nat, h: nat)
    requires var p := Samples(src, th, w, h, 1, 0);
             && p.Valid() && w % 2 == 0 && p.Size() <= |d|
    requires Samples(src, th, w, h, 2, 0).Size() <= |du| && Samples(src, th, w, h, 2, 1).Size() <= |dv|
    ensures var (p, pu, pv) := (Samples(src, th, w, h, 1, 0), Samples(src, th, w, h, 2, 0), Samples(src, th, w, h, 2, 1));
            && |Untiled(d, p)| == |d| && |Untiled(du, pu)| == |du| && |Untiled(dv, pv)| == |dv|
            && p.Size() == 2 * pu.Size() && pu.Size() == pv.Size()
            && Untiled(du, pu)[..pu.Size()] == Evens(Untiled(d, p)[..p.Size()])
            && Untiled(dv, pv)[..pv.Size()] == Odds(Untiled(d, p)[..p.Size()])
  {
    hide TileAddr, PaddedSize, Div, Mod;
    var (p, pu, pv) := (Samples(src, th, w, h, 1, 0), Samples(src, th, w, h, 2, 0), Samples(src, th, w, h, 2, 1));
    var m := pu.Width();
    assert w == 2 * m && w * h == 2 * (m * h);
    forall k: nat | k < pu.Size()
      ensures Untiled(du, pu)[k] == Untiled(d, p)[2 * k] && Untiled(dv, pv)[k] == Untiled(d, p)[2 * k + 1]
    {
      InPlane(pu, k);
      DivMod(k, m);
      var (c, r) := (Mod(k, m), Div(k, m));
      assert r * w == 2 * (r * m);
      DivModUnique(2 * k, w, r, 2 * c);
      DivModUnique(2 * k + 1, w, r, 2 * c + 1);
    }
  }

  // ----- Writing rows -----------------------------------------------------

  /** Samples c .. c + n of rows r .. r + rows have been written over before. */
  ghost predicate RowsWritten(d: seq<byte>, before: seq<byte>, p: Samples, c: nat, n: nat, r: nat, rows: nat)
    requires p.Valid() && c + n <= p.Width() && r + rows <= p.h
  {
    && |d| == |before|
    && forall k {:trigger d[k]} | 0 <= k < |d| ::
         d[k] == if k < p.Size() && c <= Mod(k, p.Width()) < c + n && r <= Div(k, p.Width()) < r + rows
                 then p.At(Mod(k, p.Width()), Div(k, p.Width())) else before[k]
  }

  /** Inside a row, place and column go together. */
  lemma LinearStrip(p: Samples, c: nat, n: nat, r: nat, k: nat)
    requires p.Valid() && c + n <= p.Width() && r < p.h && k < p.Size()
    ensures var s := p.Width() * r + c;
            && (s <= k < s + n <==> Div(k, p.Width()) == r && c <= Mod(k, p.Width()) < c + n)
            && (s <= k < s + n ==> Mod(k, p.Width()) == c + (k - s))
  {
    hide Div, Mod, Samples.Width, Samples.Size;
    var m := p.Width();
    MulMono(0, m, r);
    var s := m * r + c;
    DivMod(k, m);
    if s <= k < s + n {
      DivModUnique(k, m, r, c + (k - s));
    }
  }

  lemma RowFits(p: Samples, c: nat, n: nat, r: nat)
    requires p.Valid() && c + n <= p.Width() && r < p.h
    ensures 0 <= p.Width() * r && p.Width() * r + c + n <= p.Size()
  {
    hide Samples.Width;
    MulMono(0, p.Width(), r);
    MulMono(r + 1, p.h, p.Width());
  }

  lemma OneMoreRow(d: seq<byte>, d1: seq<byte>, before: seq<byte>, p: Samples, c: nat, n: nat, r: nat, rows: nat)
    requires p.Valid() && c + n <= p.Width() && r + rows < p.h
    requires RowsWritten(d, before, p, c, n, r, rows)
    requires var s := p.Width() * (r + rows) + c;
             && |d1| == |d| && 0 <= p.Width() * (r + rows) && s + n <= |d|
             && d1[..s + n] == d[..s] + p.Line(c, n, r + rows) && d1[s + n..] == d[s + n..]
    ensures RowsWritten(d1, before, p, c, n, r, rows + 1)
  {
    hide Div, Mod, Samples.At, Samples.Width, Samples.Size;
    Spliced(d1, d, p.Width() * (r + rows) + c, p.Line(c, n, r + rows));
    forall k: nat | k < |d1|
      ensures d1[k] == if k < p.Size() && c <= Mod(k, p.Width()) < c + n && r <= Div(k, p.Width()) < r + rows + 1
                       then p.At(Mod(k, p.Width()), Div(k, p.Width())) else before[k]
    {
      RowFits(p, c, n, r + rows);
      if k < p.Size() {
        InPlane(p, k);
        LinearStrip(p, c, n, r + rows, k);
      }
    }
  }

  lemma NoRows(d: seq<byte>, p: Samples, c: nat, n: nat, r: nat)
    requires p.Valid() && c + n <= p.Width() && r <= p.h
    ensures RowsWritten(d, d, p, c, n, r, 0)
  {
    hide Div, Mod, Samples.Valid, Samples.Width, Samples.Size;
  }

  /** The samples of n columns of a tile row are consecutive in the tile. */
  lemma TileRowSamples(p: Samples, x: nat, n: nat, y: nat)
    requires p.Valid() && p.scale == 1 && x + n <= p.w && y < p.h && 0 < n && Mod(x, 16) + n <= 16
    ensures var s := TileAddr(p.th, p.w, x, y);
            s + n <= |p.src| && p.src[s..s + n] == p.Line(x, n, y)
  {
    hide TileAddr, Div, Mod, PaddedSize;
    DivMod(y, p.th);
    TileStep(p.th, p.w, x, y, n - 1, 0);
    p.Readable(x + n - 1, y);
    var s := TileAddr(p.th, p.w, x, y);
    forall k: nat | k < n
      ensures p.Line(x, n, y)[k] == p.src[s..s + n][k]
    {
      TileStep(p.th, p.w, x, y, k, 0);
      assert p.At(x + k, y) == p.src[TileAddr(p.th, p.w, x + k, y)];
    }
  }

  lemma NextLine(p: Samples, y: nat, k: nat)
    requires p.Valid() && Mod(y, p.th) + k < p.th
    ensures Mod(y + k, p.th) == Mod(y, p.th) + k
  {
    hide Div, Mod;
    DivMod(y, p.th);
    DivModUnique(y + k, p.th, Div(y, p.th), Mod(y, p.th) + k);
  }

  /** One memcpy: n columns of row y + k. */
  method CopyTileLine(dst: array<byte>, dstOffset: nat, src: array<byte>, srcOffset: nat, n: nat,
                      ghost before: seq<byte>, ghost p: Samples, ghost x: nat, ghost y: nat, ghost k: nat)
    requires dst != src && p.Valid() && p.scale == 1 && p.src == src[..] && p.Size() <= dst.Length
    requires 0 < n && x + n <= p.w && y + k < p.h && Mod(x, 16) + n <= 16
    requires srcOffset == TileAddr(p.th, p.w, x, y + k) && dstOffset == p.w * (y + k) + x
    requires RowsWritten(dst[..], before, p, x, n, y, k)
    modifies dst
    ensures RowsWritten(dst[..], before, p, x, n, y, k + 1)
  {
    hide TileAddr, Div, Mod, PaddedSize, RowsWritten, Samples.At, Samples.Size;
    ghost var d := dst[..];
    TileRowSamples(p, x, n, y + k);
    RowFits(p, x, n, y + k);
    Memcpy(dst, dstOffset, src, srcOffset, n);
    OneMoreRow(d, dst[..], before, p, x, n, y, k);
  }

  /** The first n columns of one tile, row by row: in the source two memcpys to a round. */
  method CopyTile(dst: array<byte>, dstOffset0: nat, src: array<byte>, srcOffset0: nat, width: nat, n: nat, rows: nat,
                  ghost p: Samples, ghost x: nat, ghost y: nat)
    requires dst != src && p.Valid() && p.scale == 1 && p.src == src[..] && p.w == width && p.Size() <= dst.Length
    requires 0 < n && x + n <= width && y + rows <= p.h && Mod(x, 16) + n <= 16 && Mod(y, p.th) + rows <= p.th
    requires srcOffset0 == TileAddr(p.th, width, x, y) && dstOffset0 == width * y + x
    modifies dst
    ensures RowsWritten(dst[..], old(dst[..]), p, x, n, y, rows)
  {
    hide TileAddr, Div, Mod, PaddedSize, RowsWritten, Samples.At, Samples.Size;
    ghost var before := dst[..];
    NoRows(before, p, x, n, y);
    var (srcOffset, dstOffset) := (srcOffset0, dstOffset0);
    var k := 0;
    while k < rows
      invariant k <= rows && dst.Length == |before| && src[..] == p.src
      invariant srcOffset == srcOffset0 + 16 * k && dstOffset == width * (y + k) + x
      invariant RowsWritten(dst[..], before, p, x, n, y, k)
    {
      TileStep(p.th, width, x, y, 0, k);
      NextLine(p, y, k);
      CopyTileLine(dst, dstOffset, src, srcOffset, n, before, p, x, y, k);
      assert width * (y + k + 1) == width * (y + k) + width;
      srcOffset := srcOffset + 16;
      dstOffset := dstOffset + width;
      k := k + 1;
    }
  }

  // ----- Tile by tile -----------------------------------------------------

  /** The done part of the plane has been put into d, which was d0 at the start. */
  ghost predicate UntiledUpTo(d: seq<byte>, d0: seq<byte>, p: Samples, f: Front)
    requires p.Valid()
  {
    && |d| == |d0|
    && forall k {:trigger d[k]} | 0 <= k < |d| ::
         d[k] == if k < p.Size() && Mod(k, p.Width()) < p.Width() && Div(k, p.Width()) < p.h
                    && f.Done(Mod(k, p.Width()), Div(k, p.Width()))
                 then p.At(Mod(k, p.Width()), Div(k, p.Width())) else d0[k]
  }

  lemma TileDone(d: seq<byte>, d1: seq<byte>, d0: seq<byte>, p: Samples, f: Front, n: nat)
    requires p.Valid() && f.x0 <= f.j && f.j + n <= f.x1 <= p.Width() && f.i + f.rows <= p.h
    requires UntiledUpTo(d, d0, p, f) && RowsWritten(d1, d, p, f.j, n, f.i, f.rows)
    ensures UntiledUpTo(d1, d0, p, f.(j := f.j + n))
  {
    hide Div, Mod, Samples.At, Samples.Valid, Samples.Width, Samples.Size;
  }

  lemma SameFront(d: seq<byte>, d0: seq<byte>, p: Samples, f: Front, g: Front)
    requires p.Valid() && UntiledUpTo(d, d0, p, f)
    requires forall x: nat, y: nat | x < p.Width() && y < p.h :: f.Done(x, y) == g.Done(x, y)
    ensures UntiledUpTo(d, d0, p, g)
  {
    hide Div, Mod, Samples.At, Samples.Valid, Samples.Width, Samples.Size, Front.Done;
  }

  lemma NothingDone(d: seq<byte>, p: Samples, f: Front)
    requires p.Valid() && f.x0 == 0 && f.i == 0 && f.j == 0
    ensures UntiledUpTo(d, d, p, f)
  {
    hide Div, Mod, Samples.At, Samples.Valid, Samples.Width, Samples.Size;
  }

  lemma AllDone(d: seq<byte>, d0: seq<byte>, p: Samples, f: Front)
    requires p.Valid() && p.Size() <= |d0| && UntiledUpTo(d, d0, p, f)
    requires f.x1 == p.Width() && f.i >= p.h
    ensures d == Untiled(d0, p)
  {
    hide Div, Mod, Samples.At, Samples.Valid, Samples.Width, Samples.Size;
    forall k: nat | k < |d|
      ensures d[k] == Untiled(d0, p)[k]
    {
      if k < p.Size() {
        InPlane(p, k);
      }
    }
  }

  /** n columns of the tile whose first pixel is (j, i). */
  method PutTile(dst: array<byte>, src: array<byte>, width: nat, tiledWidth: nat, th: nat, i: nat, rows: nat,
                 j: nat, n: nat, ghost d0: seq<byte>, ghost p: Samples)
    requires dst != src && p.Valid() && p.scale == 1 && p.src == src[..] && (p.w, p.th) == (width, th)
    requires p.Size() <= dst.Length && tiledWidth == (width + 15) / 16 * 16
    requires Mod(i, th) == 0 && Mod(j, 16) == 0 && 0 < n <= 16 && j + n <= width && 0 < rows <= th && i + rows <= p.h
    requires UntiledUpTo(dst[..], d0, p, Front(0, width, i, rows, j))
    modifies dst
    ensures UntiledUpTo(dst[..], d0, p, Front(0, width, i, rows, j + n))
  {
    hide TileAddr, Div, Mod, PaddedSize, UntiledUpTo, RowsWritten, Samples.At, Samples.Size, Front.Done;
    ghost var d := dst[..];
    TileBase(th, width, i, j);
    MulMono(0, tiledWidth, i);
    MulMono(0, width, i);
    MulMono(0, j, th);
    var srcOffset := tiledWidth * i + j * th;
    var dstOffset := width * i + j;
    CopyTile(dst, dstOffset, src, srcOffset, width, n, rows, p, j, i);
    TileDone(d, dst[..], d0, p, Front(0, width, i, rows, j), n);
  }

  /** One row of tiles: whole tiles, then the ragged one at the right edge. */
  method CopyTileRow(dst: array<byte>, src: array<byte>, width: nat, th: nat, i: nat, rows: nat, alignedWidth: nat,
                     ghost d0: seq<byte>, ghost p: Samples)
    requires dst != src && p.Valid() && p.scale == 1 && p.src == src[..] && (p.w, p.th) == (width, th)
    requires p.Size() <= dst.Length && alignedWidth == width / 16 * 16
    requires Mod(i, th) == 0 && 0 < rows <= th && i + rows <= p.h
    requires UntiledUpTo(dst[..], d0, p, Front(0, width, i, rows, 0))
    modifies dst
    ensures UntiledUpTo(dst[..], d0, p, Front(0, width, i, rows, width))
  {
    hide TileAddr, Div, Mod, PaddedSize, UntiledUpTo, RowsWritten, Samples.At, Samples.Size, Front.Done;
    var tiledWidth := (width + 15) / 16 * 16;
    var j := 0;
    while j < alignedWidth
      invariant j % 16 == 0 && j <= alignedWidth && src[..] == p.src
      invariant UntiledUpTo(dst[..], d0, p, Front(0, width, i, rows, j))
    {
      TileStart(j);
      PutTile(dst, src, width, tiledWidth, th, i, rows, j, 16, d0, p);
      j := j + 16;
    }
    if alignedWidth != width {
      TileStart(j);
      PutTile(dst, src, width, tiledWidth, th, i, rows, j, width - j, d0, p);
    }
  }

  lemma TileStart(j: nat)
    requires j % 16 == 0
    ensures Mod(j, 16) == 0
  {
    DivIsDivision(j, 16);
  }

  /** Rows in whole tiles, and the rest. */
  lemma WholeTiles(i: nat, th: nat, height: nat)
    requires (th == 16 || th == 8) && (i == 0 || Mod(i, th) == 0)
    ensures var aligned := if th == 16 then height / 16 * 16 else height / 8 * 8;
            && Mod(i, th) == 0
            && (i < aligned ==> i + th <= aligned && Mod(i + th, th) == 0)
            && aligned <= height < aligned + th
  {
    hide Div, Mod;
    DivIsDivision(i, th);
    DivIsDivision(i + th, th);
  }

  /** csc_tiled_to_linear_y (th is 16) and csc_tiled_to_linear_uv (th is 8). */
  method TiledToLinear(dst: array<byte>, src: array<byte>, width: nat, height: nat, th: nat)
    requires dst != src && (th == 16 || th == 8) && (th == 16 ==> height % 2 == 0)
    requires Samples(src[..], th, width, height, 1, 0).Valid()
    requires Samples(src[..], th, width, height, 1, 0).Size() <= dst.Length
    modifies dst
    ensures dst[..] == Untiled(old(dst[..]), Samples(src[..], th, width, height, 1, 0))
  {
    hide TileAddr, Div, Mod, PaddedSize, UntiledUpTo, Untiled, Samples.At;
    ghost var (d0, p) := (dst[..], Samples(src[..], th, width, height, 1, 0));
    var alignedHeight := if th == 16 then height / 16 * 16 else height / 8 * 8;
    var alignedWidth := width / 16 * 16;
    NothingDone(d0, p, Front(0, width, 0, th, 0));
    WholeTiles(0, th, height);
    var i := 0;
    while i < alignedHeight
      invariant Mod(i, th) == 0 && i <= alignedHeight && src[..] == p.src && dst.Length == |d0|
      invariant UntiledUpTo(dst[..], d0, p, Front(0, width, i, th, 0))
    {
      WholeTiles(i, th, height);
      CopyTileRow(dst, src, width, th, i, th, alignedWidth, d0, p);
      SameFront(dst[..], d0, p, Front(0, width, i, th, width), Front(0, width, i + th, th, 0));
      i := i + th;
    }
    if alignedHeight != height {
      WholeTiles(i, th, height);
      var rows := height - alignedHeight;
      SameFront(dst[..], d0, p, Front(0, width, i, th, 0), Front(0, width, i, rows, 0));
      CopyTileRow(dst, src, width, th, i, rows, alignedWidth, d0, p);
      SameFront(dst[..], d0, p, Front(0, width, i, rows, width), Front(0, width, height, th, 0));
    }
    AllDone(dst[..], d0, p, Front(0, width, height, th, 0));
  }

  // ----- csc_tiled_to_linear_uv_deinterleave ------------------------------

  /** One csc_deinterleave_memcpy: n columns of row y + k, to both chroma planes. */
  method SplitTileLine(u: array<byte>, v: array<byte>, dstOffset: nat, src: array<byte>, srcOffset: nat, n: nat,
                       ghost beforeU: seq<byte>, ghost beforeV: seq<byte>, ghost pu: Samples, ghost pv: Samples,
                       ghost x: nat, ghost y: nat, ghost k: nat)
    requires u != src && v != src && u != v && ChromaPair(pu, pv, src[..]) && pu.Size() <= u.Length && pv.Size() <= v.Length
    requires 0 < n && n % 2 == 0 && x % 2 == 0 && x + n <= pu.w && y + k < pu.h && Mod(x, 16) + n <= 16
    requires srcOffset == TileAddr(pu.th, pu.w, x, y + k) && dstOffset == pu.Width() * (y + k) + x / 2
    requires RowsWritten(u[..], beforeU, pu, x / 2, n / 2, y, k) && RowsWritten(v[..], beforeV, pv, x / 2, n / 2, y, k)
    modifies u, v
    ensures RowsWritten(u[..], beforeU, pu, x / 2, n / 2, y, k + 1)
    ensures RowsWritten(v[..], beforeV, pv, x / 2, n / 2, y, k + 1)
  {
    hide TileAddr, Div, Mod, PaddedSize, RowsWritten, Samples.At, Samples.Size, Samples.Line, Evens, Odds;
    ghost var (du, dv) := (u[..], v[..]);
    SplitTileSamples(pu, pv, x, n, y + k);
    RowFits(pu, x / 2, n / 2, y + k);
    RowFits(pv, x / 2, n / 2, y + k);
    DeinterleaveMemcpy(u, v, dstOffset, src, srcOffset, n);
    OneMoreRow(du, u[..], beforeU, pu, x / 2, n / 2, y, k);
    OneMoreRow(dv, v[..], beforeV, pv, x / 2, n / 2, y, k);
  }

  /** The U and the V samples of one tiled chroma plane. */
  predicate ChromaPair(pu: Samples, pv: Samples, src: seq<byte>) {
    pu.Valid() && pv.Valid() && pu == Samples(src, pu.th, pu.w, pu.h, 2, 0) && pv == pu.(phase := 1)
  }

  lemma SplitTileSamples(pu: Samples, pv: Samples, x: nat, n: nat, y: nat)
    requires ChromaPair(pu, pv, pu.src)
    requires 0 < n && n % 2 == 0 && x % 2 == 0 && x + n <= pu.w && y < pu.h && Mod(x, 16) + n <= 16
    ensures x / 2 + n / 2 <= pu.Width()
    ensures var s := TileAddr(pu.th, pu.w, x, y);
            && s + n <= |pu.src|
            && Evens(pu.src[s..s + n]) == pu.Line(x / 2, n / 2, y)
            && Odds(pu.src[s..s + n]) == pv.Line(x / 2, n / 2, y)
  {
    hide TileAddr, Div, Mod, PaddedSize, Samples.At;
    var p := pu.(scale := 1);
    TileRowSamples(p, x, n, y);
    assert x / 2 + n / 2 == (x + n) / 2 && pu.Width() == pu.w / 2;
    var strip := p.Line(x, n, y);
    forall k: nat | k < n / 2
      ensures pu.Line(x / 2, n / 2, y)[k] == Evens(strip)[k] && pv.Line(x / 2, n / 2, y)[k] == Odds(strip)[k]
    {
      PhaseAt(p, pu, pv, x / 2 + k, y);
      assert 2 * (x / 2 + k) == x + 2 * k;
    }
  }

  lemma PhaseAt(p: Samples, pu: Samples, pv: Samples, c: nat, r: nat)
    requires ChromaPair(pu, pv, pu.src) && p == pu.(scale := 1) && c < pu.Width() && r < pu.h
    ensures 2 * c + 1 < p.Width()
    ensures pu.At(c, r) == p.At(2 * c, r) && pv.At(c, r) == p.At(2 * c + 1, r)
  {
    hide TileAddr, PaddedSize;
  }

  /** The first n columns of one tile, de-interleaved row by row. */
  method SplitTile(u: array<byte>, v: array<byte>, dstOffset0: nat, src: array<byte>, srcOffset0: nat, width: nat,
                   n: nat, rows: nat, ghost pu: Samples, ghost pv: Samples, ghost x: nat, ghost y: nat)
    requires u != src && v != src && u != v && ChromaPair(pu, pv, src[..]) && pu.w == width
    requires pu.Size() <= u.Length && pv.Size() <= v.Length
    requires 0 < n && n % 2 == 0 && x % 2 == 0 && x + n <= width && y + rows <= pu.h
    requires Mod(x, 16) + n <= 16 && Mod(y, pu.th) + rows <= pu.th
    requires srcOffset0 == TileAddr(pu.th, width, x, y) && dstOffset0 == pu.Width() * y + x / 2
    modifies u, v
    ensures x / 2 + n / 2 <= pu.Width()
    ensures RowsWritten(u[..], old(u[..]), pu, x / 2, n / 2, y, rows)
    ensures RowsWritten(v[..], old(v[..]), pv, x / 2, n / 2, y, rows)
  {
    hide TileAddr, Div, Mod, PaddedSize, RowsWritten, Samples.At, Samples.Size;
    ghost var (beforeU, beforeV) := (u[..], v[..]);
    assert pu.Width() == width / 2 && x / 2 + n / 2 <= width / 2;
    NoRows(beforeU, pu, x / 2, n / 2, y);
    NoRows(beforeV, pv, x / 2, n / 2, y);
    var (srcOffset, dstOffset) := (srcOffset0, dstOffset0);
    var k := 0;
    while k < rows
      invariant k <= rows && u.Length == |beforeU| && v.Length == |beforeV| && src[..] == pu.src
      invariant srcOffset == srcOffset0 + 16 * k && dstOffset == width / 2 * (y + k) + x / 2
      invariant RowsWritten(u[..], beforeU, pu, x / 2, n / 2, y, k)
      invariant RowsWritten(v[..], beforeV, pv, x / 2, n / 2, y, k)
    {
      TileStep(pu.th, width, x, y, 0, k);
      NextLine(pu, y, k);
      SplitTileLine(u, v, dstOffset, src, srcOffset, n, beforeU, beforeV, pu, pv, x, y, k);
      assert width / 2 * (y + k + 1) == width / 2 * (y + k) + width / 2;
      srcOffset := srcOffset + 16;
      dstOffset := dstOffset + width / 2;
      k := k + 1;
    }
  }

  method PutChromaTile(u: array<byte>, v: array<byte>, src: array<byte>, width: nat, tiledWidth: nat, i: nat, rows: nat,
                       j: nat, n: nat, ghost u0: seq<byte>, ghost v0: seq<byte>, ghost pu: Samples, ghost pv: Samples)
    requires u != src && v != src && u != v && ChromaPair(pu, pv, src[..]) && pu.w == width && pu.th == 8
    requires pu.Size() <= u.Length && pv.Size() <= v.Length && tiledWidth == (width + 15) / 16 * 16
    requires Mod(i, 8) == 0 && Mod(j, 16) == 0 && j % 2 == 0 && 0 < n <= 16 && n % 2 == 0 && j + n <= width
    requires 0 < rows <= 8 && i + rows <= pu.h
    requires UntiledUpTo(u[..], u0, pu, Front(0, width / 2, i, rows, j / 2))
    requires UntiledUpTo(v[..], v0, pv, Front(0, width / 2, i, rows, j / 2))
    modifies u, v
    ensures UntiledUpTo(u[..], u0, pu, Front(0, width / 2, i, rows, (j + n) / 2))
    ensures UntiledUpTo(v[..], v0, pv, Front(0, width / 2, i, rows, (j + n) / 2))
  {
    hide TileAddr, Div, Mod, PaddedSize, UntiledUpTo, RowsWritten, Samples.At, Samples.Size, Front.Done;
    ghost var (du, dv) := (u[..], v[..]);
    TileBase(8, width, i, j);
    MulMono(0, tiledWidth, i);
    MulMono(0, width / 2, i);
    var srcOffset := tiledWidth * i + j * 8;
    var dstOffset := width / 2 * i + j / 2;
    SplitTile(u, v, dstOffset, src, srcOffset, width, n, rows, pu, pv, j, i);
    assert (j + n) / 2 == j / 2 + n / 2;
    TileDone(du, u[..], u0, pu, Front(0, width / 2, i, rows, j / 2), n / 2);
    TileDone(dv, v[..], v0, pv, Front(0, width / 2, i, rows, j / 2), n / 2);
  }

  method SplitTileRow(u: array<byte>, v: array<byte>, src: array<byte>, width: nat, i: nat, rows: nat, alignedWidth: nat,
                      ghost u0: seq<byte>, ghost v0: seq<byte>, ghost pu: Samples, ghost pv: Samples)
    requires u != src && v != src && u != v && ChromaPair(pu, pv, src[..]) && pu.w == width && pu.th == 8
    requires pu.Size() <= u.Length && pv.Size() <= v.Length && alignedWidth == width / 16 * 16
    requires Mod(i, 8) == 0 && 0 < rows <= 8 && i + rows <= pu.h
    requires UntiledUpTo(u[..], u0, pu, Front(0, width / 2, i, rows, 0))
    requires UntiledUpTo(v[..], v0, pv, Front(0, width / 2, i, rows, 0))
    modifies u, v
    ensures UntiledUpTo(u[..], u0, pu, Front(0, width / 2, i, rows, width / 2))
    ensures UntiledUpTo(v[..], v0, pv, Front(0, width / 2, i, rows, width / 2))
  {
    hide TileAddr, Div, Mod, PaddedSize, UntiledUpTo, RowsWritten, Samples.At, Samples.Size, Samples.Width, Front.Done;
    var tiledWidth := (width + 15) / 16 * 16;
    var j := 0;
    while j < alignedWidth
      invariant j % 16 == 0 && j <= alignedWidth && src[..] == pu.src
      invariant UntiledUpTo(u[..], u0, pu, Front(0, width / 2, i, rows, j / 2))
      invariant UntiledUpTo(v[..], v0, pv, Front(0, width / 2, i, rows, j / 2))
    {
      TileStart(j);
      EvenTile(j, width);
      PutChromaTile(u, v, src, width, tiledWidth, i, rows, j, 16, u0, v0, pu, pv);
      j := j + 16;
    }
    if alignedWidth != width {
      TileStart(j);
      EvenTile(j, width);
      PutChromaTile(u, v, src, width, tiledWidth, i, rows, j, width - j, u0, v0, pu, pv);
    }
  }

  lemma EvenTile(j: nat, width: nat)
    requires j % 16 == 0
    ensures j % 2 == 0 && (j + 16) % 16 == 0 && (width % 2 == 0 && j <= width ==> (width - j) % 2 == 0)
    ensures j < width / 16 * 16 ==> j + 16 <= width / 16 * 16
  {}

  method TiledToLinearDeinterleave(u: array<byte>, v: array<byte>, src: array<byte>, width: nat, height: nat)
    requires u != src && v != src && u != v
    requires var pu := Samples(src[..], 8, width, height, 2, 0);
             pu.Valid() && pu.Size() <= u.Length && pu.Size() <= v.Length
    modifies u, v
    ensures u[..] == Untiled(old(u[..]), Samples(src[..], 8, width, height, 2, 0))
    ensures v[..] == Untiled(old(v[..]), Samples(src[..], 8, width, height, 2, 1))
  {
    hide TileAddr, Div, Mod, PaddedSize, UntiledUpTo, Untiled, Samples.At;
    ghost var (u0, v0) := (u[..], v[..]);
    ghost var pu := Samples(src[..], 8, width, height, 2, 0);
    ghost var pv := pu.(phase := 1);
    var alignedHeight := height / 8 * 8;
    var alignedWidth := width / 16 * 16;
    ghost var m := width / 2;
    NothingDone(u0, pu, Front(0, m, 0, 8, 0));
    NothingDone(v0, pv, Front(0, m, 0, 8, 0));
    WholeTiles(0, 8, height);
    var i := 0;
    while i < alignedHeight
      invariant Mod(i, 8) == 0 && i <= alignedHeight && src[..] == pu.src && u.Length == |u0| && v.Length == |v0|
      invariant UntiledUpTo(u[..], u0, pu, Front(0, m, i, 8, 0)) && UntiledUpTo(v[..], v0, pv, Front(0, m, i, 8, 0))
    {
      WholeTiles(i, 8, height);
      SplitTileRow(u, v, src, width, i, 8, alignedWidth, u0, v0, pu, pv);
      SameFront(u[..], u0, pu, Front(0, m, i, 8, m), Front(0, m, i + 8, 8, 0));
      SameFront(v[..], v0, pv, Front(0, m, i, 8, m), Front(0, m, i + 8, 8, 0));
      i := i + 8;
    }
    if alignedHeight != height {
      WholeTiles(i, 8, height);
      var rows := height - alignedHeight;
      SameFront(u[..], u0, pu, Front(0, m, i, 8, 0), Front(0, m, i, rows, 0));
      SameFront(v[..], v0, pv, Front(0, m, i, 8, 0), Front(0, m, i, rows, 0));
      SplitTileRow(u, v, src, width, i, rows, alignedWidth, u0, v0, pu, pv);
      SameFront(u[..], u0, pu, Front(0, m, i, rows, m), Front(0, m, height, 8, 0));
      SameFront(v[..], v0, pv, Front(0, m, i, rows, m), Front(0, m, height, 8, 0));
    }
    AllDone(u[..], u0, pu, Front(0, m, height, 8, 0));
    AllDone(v[..], v0, pv, Front(0, m, height, 8, 0));
  }
}
