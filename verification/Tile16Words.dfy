/** Tile2D_To_YUV420: the same planes as the strip-copy converters, read from the tiles a 32-bit word
    at a time and written a byte at a time. */
module Tile16Words {
  import opened Bytes
  import opened Progress
  import opened Tile16Layout
  import opened Tile16Untile

  /** The little-endian word at offset a. */
  function Word(s: seq<byte>, a: nat): nat
    requires a + 4 <= |s|
  {
    s[a] as nat + 0x100 * s[a + 1] as nat + 0x10000 * s[a + 2] as nat + 0x1000000 * s[a + 3] as nat
  }

  /** (data >> (8 * j)) & 0xff. */
  function ByteOf(data: nat, j: nat): byte
    requires j < 4
  {
    (data / (if j == 0 then 1 else if j == 1 then 0x100 else if j == 2 then 0x10000 else 0x1000000) % 0x100) as byte
  }

  lemma WordBytes(s: seq<byte>, a: nat, j: nat)
    requires a + 4 <= |s| && j < 4
    ensures ByteOf(Word(s, a), j) == s[a + j]
  {
    var (b0, b1, b2, b3) := (s[a] as nat, s[a + 1] as nat, s[a + 2] as nat, s[a + 3] as nat);
    var data := Word(s, a);
    Parts(data, 0x100, b1 + 0x100 * b2 + 0x10000 * b3, b0);
    Parts(data, 0x10000, b2 + 0x100 * b3, b0 + 0x100 * b1);
    Parts(data, 0x1000000, b3, b0 + 0x100 * b1 + 0x10000 * b2);
    Parts(b1 + 0x100 * b2 + 0x10000 * b3, 0x100, b2 + 0x100 * b3, b1);
    Parts(b2 + 0x100 * b3, 0x100, b3, b2);
  }

  // ----- Bytes, lines, tiles ----------------------------------------------

  lemma OneMoreByte(d: seq<byte>, before: seq<byte>, p: Samples, c: nat, n: nat, r: nat)
    requires p.Valid() && c + n < p.Width() && r < p.h && RowsWritten(d, before, p, c, n, r, 1)
    requires p.Size() <= |d|
    ensures 0 <= p.Width() * r + c + n < |d|
    ensures RowsWritten(d[p.Width() * r + c + n := p.At(c + n, r)], before, p, c, n + 1, r, 1)
  {
    hide Div, Mod, Samples.At, Samples.Width, Samples.Size;
    RowFits(p, c, n + 1, r);
    var i := p.Width() * r + c + n;
    var d1 := d[i := p.At(c + n, r)];
    forall k: nat | k < |d1|
      ensures d1[k] == if k < p.Size() && c <= Mod(k, p.Width()) < c + n + 1 && r <= Div(k, p.Width()) < r + 1
                       then p.At(Mod(k, p.Width()), Div(k, p.Width())) else before[k]
    {
      if k < p.Size() {
        LinearStrip(p, c + n, 1, r, k);
      }
    }
  }

  lemma StackRows(d: seq<byte>, d1: seq<byte>, before: seq<byte>, p: Samples, c: nat, n: nat, r: nat, rows: nat)
    requires p.Valid() && c + n <= p.Width() && r + rows < p.h
    requires RowsWritten(d, before, p, c, n, r, rows) && RowsWritten(d1, d, p, c, n, r + rows, 1)
    ensures RowsWritten(d1, before, p, c, n, r, rows + 1)
  {
    hide Div, Mod, Samples.At, Samples.Width, Samples.Size, Samples.Valid;
  }

  /** All 16 bytes of a tile row are there, also beyond the plane. */
  lemma TileLine(p: Samples, x: nat, y: nat)
    requires p.Valid() && x < p.w && y < p.h && Mod(x, 16) == 0
    ensures TileAddr(p.th, p.w, x, y) + 16 <= |p.src|
  {
    hide TileAddr, Div, Mod, PaddedSize;
    DivMod(y, p.th);
    RowsOfTiles(p.th, p.h);
    WholeTileColumns(p.w, x);
    TileStep(p.th, p.w, x, y, 15, 0);
    AddrThenInverse(p.th, p.w, p.h, x + 15, y);
  }

  /** Column t of a tile row is byte t of its 16. */
  lemma TileByte(p: Samples, x: nat, y: nat, t: nat)
    requires p.Valid() && p.scale == 1 && x + t < p.w && y < p.h && Mod(x, 16) == 0 && t < 16
    ensures TileAddr(p.th, p.w, x, y) + t < |p.src|
    ensures p.src[TileAddr(p.th, p.w, x, y) + t] == p.At(x + t, y)
  {
    hide TileAddr, Div, Mod, PaddedSize;
    DivMod(y, p.th);
    TileStep(p.th, p.w, x, y, t, 0);
    p.Readable(x + t, y);
    assert p.At(x + t, y) == p.src[TileAddr(p.th, p.w, x + t, y)];
  }

  lemma WholeTileColumns(w: nat, x: nat)
    requires x < w && Mod(x, 16) == 0
    ensures x + 15 < 16 * TilesX(w)
  {
    hide Div, Mod;
    DivMod(x, 16);
  }

  /** Words of a tile row that hold pixels of the plane. */
  function WordsPerRow(width: nat, x: nat): nat {
    if x + 16 > width then (if width % 4 != 0 then width % 16 / 4 + 1 else width % 16 / 4) else 4
  }

  lemma WordsCover(width: nat, x: nat)
    requires x % 16 == 0 && x < width
    ensures var n := if x + 16 > width then width - x else 16;
            WordsPerRow(width, x) <= 4 && 4 * (WordsPerRow(width, x) - 1) < n <= 4 * WordsPerRow(width, x)
  {
    if x + 16 > width {
      Parts(width, 16, x / 16, width - x);
      Parts(width, 4, 4 * (x / 16) + (width - x) / 4, (width - x) % 4);
    }
  }

  /** Y_plane[row * width + x + l * 4 + j] = byte j of word l of the tile row. */
  method LumaByte(dst: array<byte>, ghost lineAddr: nat, data: nat, l: nat, j: nat, width: nat, x: nat, row: nat,
                  ghost before: seq<byte>, ghost p: Samples)
    requires p.Valid() && p.scale == 1 && p.w == width && p.Size() <= dst.Length && l < 4 && j < 4
    requires Mod(x, 16) == 0 && row < p.h && x + l * 4 + j < width && lineAddr == TileAddr(p.th, width, x, row)
    requires lineAddr + 16 <= |p.src| && data == Word(p.src, lineAddr + l * 4)
    requires RowsWritten(dst[..], before, p, x, 4 * l + j, row, 1)
    modifies dst
    ensures RowsWritten(dst[..], before, p, x, 4 * l + j + 1, row, 1)
  {
    hide TileAddr, Div, Mod, PaddedSize, RowsWritten, Samples.At, Samples.Size, Word, ByteOf;
    ghost var d := dst[..];
    WordBytes(p.src, lineAddr + l * 4, j);
    TileByte(p, x, row, 4 * l + j);
    OneMoreByte(d, before, p, x, 4 * l + j, row);
    var i := row * width + x + l * 4 + j;
    assert i == p.Width() * row + x + (4 * l + j);
    dst[i] := ByteOf(data, j);
    assert dst[..] == d[i := p.At(x + (4 * l + j), row)];
  }

  /** One row of a luma tile. */
  method LumaLine(dst: array<byte>, src: array<byte>, lineAddr: nat, width: nat, x: nat, row: nat, ghost p: Samples)
    requires dst != src && p.Valid() && p.scale == 1 && p.src == src[..] && p.w == width && p.Size() <= dst.Length
    requires x % 16 == 0 && x < width && row < p.h && lineAddr == TileAddr(p.th, width, x, row)
    modifies dst
    ensures var n := if x + 16 > width then width - x else 16;
            RowsWritten(dst[..], old(dst[..]), p, x, n, row, 1)
  {
    hide TileAddr, Div, Mod, PaddedSize, RowsWritten, Samples.At, Samples.Size, Word, ByteOf, WordsPerRow;
    ghost var before := dst[..];
    TileStart(x);
    TileLine(p, x, row);
    WordsCover(width, x);
    NoColumns(before, p, x, row);
    var actualWidth := WordsPerRow(width, x);
    ghost var n := if x + 16 > width then width - x else 16;
    var l := 0;
    while l < actualWidth
      invariant l <= actualWidth && src[..] == p.src && dst.Length == |before|
      invariant RowsWritten(dst[..], before, p, x, if 4 * l < n then 4 * l else n, row, 1)
    {
      ghost var s := src[..];
      var data := Word(src[..], lineAddr + l * 4);
      var j := 0;
      while j < 4 && x + l * 4 + j < width
        invariant j <= 4 && 4 * l + j <= n && src[..] == p.src && dst.Length == |before|
        invariant RowsWritten(dst[..], before, p, x, 4 * l + j, row, 1)
      {
        LumaByte(dst, lineAddr, data, l, j, width, x, row, before, p);
        j := j + 1;
      }
      l := l + 1;
    }
  }

  lemma NoColumns(d: seq<byte>, p: Samples, c: nat, r: nat)
    requires p.Valid() && c <= p.Width() && r < p.h
    ensures RowsWritten(d, d, p, c, 0, r, 1)
  {
    hide Div, Mod, Samples.Valid, Samples.Width, Samples.Size;
  }

  /** One luma tile. */
  method LumaTile(dst: array<byte>, src: array<byte>, width: nat, height: nat, x: nat, y: nat, ghost p: Samples)
    requires dst != src && p == Samples(src[..], 16, width, height, 1, 0) && p.Valid() && p.Size() <= dst.Length
    requires x % 16 == 0 && x < width && y % 16 == 0 && y < height
    modifies dst
    ensures var n := if x + 16 > width then width - x else 16;
            var rows := if y + 16 > height then height - y else 16;
            RowsWritten(dst[..], old(dst[..]), p, x, n, y, rows)
  {
    hide TileAddr, Div, Mod, PaddedSize, RowsWritten, Samples.At, Samples.Size;
    ghost var before := dst[..];
    ghost var n := if x + 16 > width then width - x else 16;
    TileStart(x);
    TileStart(y);
    NoRows(before, p, x, n, y);
    var baseAddr := Tile2DToLinear(width, height, x, y, false);
    Tile2DToLinearIsTileAddr(width, height, x, y, false);
    var k := 0;
    while k < 16 && y + k < height
      invariant k <= 16 && y + k <= height && src[..] == p.src && dst.Length == |before|
      invariant RowsWritten(dst[..], before, p, x, n, y, k)
    {
      ghost var d := dst[..];
      TileStep(16, width, x, y, 0, k);
      LumaLine(dst, src, baseAddr + 16 * k, width, x, y + k, p);
      StackRows(d, dst[..], before, p, x, n, y, k);
      k := k + 1;
    }
  }

  /** The luma half of Tile2D_To_YUV420. */
  method TilesToY(dst: array<byte>, src: array<byte>, width: nat, height: nat)
    requires dst != src && Samples(src[..], 16, width, height, 1, 0).Valid()
    requires Samples(src[..], 16, width, height, 1, 0).Size() <= dst.Length
    modifies dst
    ensures dst[..] == Untiled(old(dst[..]), Samples(src[..], 16, width, height, 1, 0))
  {
    hide TileAddr, Div, Mod, PaddedSize, RowsWritten, UntiledUpTo, Untiled, Samples.At, Samples.Size;
    ghost var (d0, p) := (dst[..], Samples(src[..], 16, width, height, 1, 0));
    NothingDone(d0, p, Front(0, width, 0, 16, 0));
    var y := 0;
    while y < height
      invariant y % 16 == 0 && src[..] == p.src && dst.Length == |d0|
      invariant UntiledUpTo(dst[..], d0, p, Front(0, width, y, 16, 0))
    {
      ghost var rows := if y + 16 > height then height - y else 16;
      SameFront(dst[..], d0, p, Front(0, width, y, 16, 0), Front(0, width, y, rows, 0));
      var x := 0;
      while x < width
        invariant x % 16 == 0 && src[..] == p.src && dst.Length == |d0|
        invariant UntiledUpTo(dst[..], d0, p, Front(0, width, y, rows, if x < width then x else width))
      {
        ghost var d := dst[..];
        LumaTile(dst, src, width, height, x, y, p);
        TileDone(d, dst[..], d0, p, Front(0, width, y, rows, x), if x + 16 > width then width - x else 16);
        x := x + 16;
      }
      SameFront(dst[..], d0, p, Front(0, width, y, rows, width), Front(0, width, y + 16, 16, 0));
      y := y + 16;
    }
    AllDone(dst[..], d0, p, Front(0, width, y, 16, 0));
  }

  // ----- Chroma -----------------------------------------------------------

  /** Cb and Cr of sample j of word l of the tile row. */
  method ChromaSample(cb: array<byte>, cr: array<byte>, ghost lineAddr: nat, data: nat, l: nat, j: nat,
                      width: nat, x: nat, row: nat, ghost beforeB: seq<byte>, ghost beforeR: seq<byte>,
                      ghost pb: Samples, ghost pr: Samples)
    requires cb != cr && ChromaPair(pb, pr, pb.src) && pb.w == width
    requires pb.Size() <= cb.Length && pr.Size() <= cr.Length && l < 4 && j < 2
    requires x % 16 == 0 && row < pb.h && x / 2 + l * 2 + j < width / 2 && lineAddr == TileAddr(pb.th, width, x, row)
    requires lineAddr + 16 <= |pb.src| && data == Word(pb.src, lineAddr + l * 4)
    requires RowsWritten(cb[..], beforeB, pb, x / 2, 2 * l + j, row, 1)
    requires RowsWritten(cr[..], beforeR, pr, x / 2, 2 * l + j, row, 1)
    modifies cb, cr
    ensures RowsWritten(cb[..], beforeB, pb, x / 2, 2 * l + j + 1, row, 1)
    ensures RowsWritten(cr[..], beforeR, pr, x / 2, 2 * l + j + 1, row, 1)
  {
    hide TileAddr, Div, Mod, PaddedSize, RowsWritten, Samples.At, Samples.Size, Word, ByteOf;
    ghost var (db, dr, c) := (cb[..], cr[..], x / 2 + (2 * l + j));
    SampleBytes(pb, pr, lineAddr, l, j, x, row);
    OneMoreByte(db, beforeB, pb, x / 2, 2 * l + j, row);
    OneMoreByte(dr, beforeR, pr, x / 2, 2 * l + j, row);
    HalfRow(row, width);
    var i := row * width / 2 + x / 2 + l * 2 + j;
    assert i == pb.Width() * row + x / 2 + (2 * l + j);
    cb[i] := ByteOf(data, 2 * j);
    cr[i] := ByteOf(data, 2 * j + 1);
    assert cb[..] == db[i := pb.At(c, row)];
    assert cr[..] == dr[i := pr.At(c, row)];
  }

  lemma HalfRow(row: nat, width: nat)
    requires width % 2 == 0
    ensures row * width / 2 == width / 2 * row
  {
    Parts(row * width, 2, width / 2 * row, 0);
  }

  lemma SampleBytes(pb: Samples, pr: Samples, lineAddr: nat, l: nat, j: nat, x: nat, row: nat)
    requires ChromaPair(pb, pr, pb.src) && l < 4 && j < 2
    requires x % 16 == 0 && row < pb.h && x / 2 + l * 2 + j < pb.w / 2 && lineAddr == TileAddr(pb.th, pb.w, x, row)
    requires lineAddr + 16 <= |pb.src|
    ensures x / 2 + (2 * l + j) < pb.Width()
    ensures ByteOf(Word(pb.src, lineAddr + l * 4), 2 * j) == pb.At(x / 2 + (2 * l + j), row)
    ensures ByteOf(Word(pb.src, lineAddr + l * 4), 2 * j + 1) == pr.At(x / 2 + (2 * l + j), row)
  {
    hide TileAddr, Div, Mod, PaddedSize, Samples.At, Word, ByteOf;
    var p := pb.(scale := 1);
    var c := x / 2 + (2 * l + j);
    TileStart(x);
    assert x == 2 * (x / 2) by { EvenTile(x, x); }
    PhaseAt(p, pb, pr, c, row);
    WordBytes(pb.src, lineAddr + l * 4, 2 * j);
    WordBytes(pb.src, lineAddr + l * 4, 2 * j + 1);
    TileByte(p, x, row, 4 * l + 2 * j);
    TileByte(p, x, row, 4 * l + 2 * j + 1);
    assert 2 * c == x + (4 * l + 2 * j) && 2 * c + 1 == x + (4 * l + 2 * j + 1);
    assert lineAddr + l * 4 + 2 * j == lineAddr + (4 * l + 2 * j);
  }

  /** One row of a chroma tile. */
  method ChromaLine(cb: array<byte>, cr: array<byte>, src: array<byte>, lineAddr: nat, width: nat, x: nat, row: nat,
                    ghost pb: Samples, ghost pr: Samples)
    requires cb != cr && cb != src && cr != src && ChromaPair(pb, pr, src[..]) && pb.w == width
    requires pb.Size() <= cb.Length && pr.Size() <= cr.Length
    requires x % 16 == 0 && x < width && row < pb.h && lineAddr == TileAddr(pb.th, width, x, row)
    modifies cb, cr
    ensures var n := if x + 16 > width then (width - x) / 2 else 8;
            && x / 2 + n <= width / 2
            && RowsWritten(cb[..], old(cb[..]), pb, x / 2, n, row, 1)
            && RowsWritten(cr[..], old(cr[..]), pr, x / 2, n, row, 1)
  {
    hide TileAddr, Div, Mod, PaddedSize, RowsWritten, Samples.At, Samples.Size, Word, ByteOf, WordsPerRow;
    ghost var (beforeB, beforeR) := (cb[..], cr[..]);
    TileStart(x);
    TileLine(pb, x, row);
    WordsCover(width, x);
    HalfTile(width, x);
    NoColumns(beforeB, pb, x / 2, row);
    NoColumns(beforeR, pr, x / 2, row);
    var actualWidth := WordsPerRow(width, x);
    ghost var n := if x + 16 > width then (width - x) / 2 else 8;
    var l := 0;
    while l < actualWidth
      invariant l <= actualWidth && src[..] == pb.src && cb.Length == |beforeB| && cr.Length == |beforeR|
      invariant RowsWritten(cb[..], beforeB, pb, x / 2, if 2 * l < n then 2 * l else n, row, 1)
      invariant RowsWritten(cr[..], beforeR, pr, x / 2, if 2 * l < n then 2 * l else n, row, 1)
    {
      var data := Word(src[..], lineAddr + l * 4);
      var j := 0;
      while j < 2 && x / 2 + l * 2 + j < width / 2
        invariant j <= 2 && 2 * l + j <= n && src[..] == pb.src && cb.Length == |beforeB| && cr.Length == |beforeR|
        invariant RowsWritten(cb[..], beforeB, pb, x / 2, 2 * l + j, row, 1)
        invariant RowsWritten(cr[..], beforeR, pr, x / 2, 2 * l + j, row, 1)
      {
        ChromaSample(cb, cr, lineAddr, data, l, j, width, x, row, beforeB, beforeR, pb, pr);
        j := j + 1;
      }
      l := l + 1;
    }
  }

  lemma HalfTile(width: nat, x: nat)
    requires x % 16 == 0 && width % 2 == 0 && x < width
    ensures var n := if x + 16 > width then (width - x) / 2 else 8;
            && x / 2 + n <= width / 2 && (x + 16 > width ==> x / 2 + n == width / 2 && 2 * n == width - x)
  {
    EvenTile(x, width);
  }

  /** One chroma tile. */
  method ChromaTile(cb: array<byte>, cr: array<byte>, src: array<byte>, width: nat, chromaHeight: nat, x: nat, y: nat,
                    ghost pb: Samples, ghost pr: Samples)
    requires cb != cr && cb != src && cr != src && ChromaPair(pb, pr, src[..])
    requires (pb.th, pb.w, pb.h) == (8, width, chromaHeight) && pb.Size() <= cb.Length && pr.Size() <= cr.Length
    requires x % 16 == 0 && x < width && y % 8 == 0 && y < chromaHeight
    modifies cb, cr
    ensures var n := if x + 16 > width then (width - x) / 2 else 8;
            var rows := if y + 8 > chromaHeight then chromaHeight - y else 8;
            && x / 2 + n <= width / 2
            && RowsWritten(cb[..], old(cb[..]), pb, x / 2, n, y, rows)
            && RowsWritten(cr[..], old(cr[..]), pr, x / 2, n, y, rows)
  {
    hide TileAddr, Div, Mod, PaddedSize, RowsWritten, Samples.At, Samples.Size;
    ghost var (beforeB, beforeR) := (cb[..], cr[..]);
    ghost var n := if x + 16 > width then (width - x) / 2 else 8;
    HalfTile(width, x);
    TileStart(x);
    DivIsDivision(y, 8);
    NoRows(beforeB, pb, x / 2, n, y);
    NoRows(beforeR, pr, x / 2, n, y);
    var baseAddr := Tile2DToLinear(width, chromaHeight, x, y, true);
    Tile2DToLinearIsTileAddr(width, chromaHeight, x, y, true);
    var k := 0;
    while k < 8 && y + k < chromaHeight
      invariant k <= 8 && y + k <= chromaHeight && src[..] == pb.src
      invariant cb.Length == |beforeB| && cr.Length == |beforeR|
      invariant RowsWritten(cb[..], beforeB, pb, x / 2, n, y, k)
      invariant RowsWritten(cr[..], beforeR, pr, x / 2, n, y, k)
    {
      ghost var (db, dr) := (cb[..], cr[..]);
      TileStep(8, width, x, y, 0, k);
      ChromaLine(cb, cr, src, baseAddr + 16 * k, width, x, y + k, pb, pr);
      StackRows(db, cb[..], beforeB, pb, x / 2, n, y, k);
      StackRows(dr, cr[..], beforeR, pr, x / 2, n, y, k);
      k := k + 1;
    }
  }

  /** The chroma half of Tile2D_To_YUV420, for even widths. */
  method TilesToCbCr(cb: array<byte>, cr: array<byte>, src: array<byte>, width: nat, height: nat)
    requires cb != cr && cb != src && cr != src
    requires var pb := Samples(src[..], 8, width, height / 2, 2, 0);
             pb.Valid() && pb.Size() <= cb.Length && pb.Size() <= cr.Length
    modifies cb, cr
    ensures cb[..] == Untiled(old(cb[..]), Samples(src[..], 8, width, height / 2, 2, 0))
    ensures cr[..] == Untiled(old(cr[..]), Samples(src[..], 8, width, height / 2, 2, 1))
  {
    hide TileAddr, Div, Mod, PaddedSize, RowsWritten, UntiledUpTo, Untiled, Samples.At, Samples.Size;
    var chromaHeight := height / 2;
    ghost var (b0, r0, m) := (cb[..], cr[..], width / 2);
    ghost var pb := Samples(src[..], 8, width, chromaHeight, 2, 0);
    ghost var pr := pb.(phase := 1);
    assert pr.Size() == pb.Size() by { SameSize(pb); }
    NothingDone(b0, pb, Front(0, m, 0, 8, 0));
    NothingDone(r0, pr, Front(0, m, 0, 8, 0));
    var y := 0;
    while y < chromaHeight
      invariant y % 8 == 0 && src[..] == pb.src && cb.Length == |b0| && cr.Length == |r0|
      invariant UntiledUpTo(cb[..], b0, pb, Front(0, m, y, 8, 0)) && UntiledUpTo(cr[..], r0, pr, Front(0, m, y, 8, 0))
    {
      ghost var rows := if y + 8 > chromaHeight then chromaHeight - y else 8;
      SameFront(cb[..], b0, pb, Front(0, m, y, 8, 0), Front(0, m, y, rows, 0));
      SameFront(cr[..], r0, pr, Front(0, m, y, 8, 0), Front(0, m, y, rows, 0));
      var x := 0;
      while x < width
        invariant x % 16 == 0 && src[..] == pb.src && cb.Length == |b0| && cr.Length == |r0|
        invariant UntiledUpTo(cb[..], b0, pb, Front(0, m, y, rows, if x < width then x / 2 else m))
        invariant UntiledUpTo(cr[..], r0, pr, Front(0, m, y, rows, if x < width then x / 2 else m))
      {
        ghost var (db, dr) := (cb[..], cr[..]);
        ghost var n := if x + 16 > width then (width - x) / 2 else 8;
        HalfTile(width, x);
        ChromaTile(cb, cr, src, width, chromaHeight, x, y, pb, pr);
        TileDone(db, cb[..], b0, pb, Front(0, m, y, rows, x / 2), n);
        TileDone(dr, cr[..], r0, pr, Front(0, m, y, rows, x / 2), n);
        x := x + 16;
      }
      SameFront(cb[..], b0, pb, Front(0, m, y, rows, m), Front(0, m, y + 8, 8, 0));
      SameFront(cr[..], r0, pr, Front(0, m, y, rows, m), Front(0, m, y + 8, 8, 0));
      y := y + 8;
    }
    AllDone(cb[..], b0, pb, Front(0, m, y, 8, 0));
    AllDone(cr[..], r0, pr, Front(0, m, y, 8, 0));
  }

  lemma SameSize(pb: Samples)
    requires pb.Valid() && pb.scale == 2 && pb.phase == 0
    ensures pb.(phase := 1).Valid() && pb.(phase := 1).Size() == pb.Size()
  {
    hide PaddedSize;
  }
}
