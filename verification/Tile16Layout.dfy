/** The 16-column tiled layout of MFC 6.x: 16x16 luma tiles and 16x8 chroma tiles, stored row by row. */
module Tile16Layout {
  import opened Bytes

  /** Tiles across a plane of w columns. */
  function TilesX(w: nat): nat { (w + 15) / 16 }

  /** Tiles down a plane of h rows, for tiles of th rows. */
  function TilesY(th: nat, h: nat): nat
    requires th > 0
  {
    Div(h + th - 1, th)
  }

  /** Bytes of the padded plane. */
  function PaddedSize(th: nat, w: nat, h: nat): nat
    requires th > 0
  {
    MulMono(0, TilesY(th, h), TilesX(w));
    MulMono(0, TilesY(th, h) * TilesX(w), 16 * th);
    TilesY(th, h) * TilesX(w) * (16 * th)
  }

  /** Place of pixel (x, y): its tile, its row in the tile, its column in the tile. */
  function TileAddr(th: nat, w: nat, x: nat, y: nat): nat
    requires th > 0
  {
    MulMono(0, Div(y, th), TilesX(w));
    MulMono(0, Div(y, th) * TilesX(w) + Div(x, 16), 16 * th);
    (Div(y, th) * TilesX(w) + Div(x, 16)) * (16 * th) + Mod(y, th) * 16 + Mod(x, 16)
  }

  /** Tile2D_To_Linear, with its shifts and masks; crFlag selects the chroma plane. */
  function Tile2DToLinear(width: nat, height: nat, xpos: nat, ypos: nat, crFlag: bool): nat {
    var tileNumX := (width + 15) / 16 * 16 / 16;
    if !crFlag then
      MulMono(0, ypos / 16, tileNumX);
      BitOr((ypos / 16 * tileNumX + xpos / 16) * 256, ypos % 16 * 16 + xpos % 16)
    else
      MulMono(0, ypos / 8, tileNumX);
      BitOr((ypos / 8 * tileNumX + xpos / 16) * 128, ypos % 8 * 16 + xpos % 16)
  }

  lemma Tile2DToLinearIsTileAddr(w: nat, h: nat, x: nat, y: nat, crFlag: bool)
    ensures Tile2DToLinear(w, h, x, y, crFlag) == TileAddr(if crFlag then 8 else 16, w, x, y)
  {
    hide BitOr, Div, Mod, IsPowerOfTwo;
    var th := if crFlag then 8 else 16;
    DivIsDivision(x, 16);
    DivIsDivision(y, th);
    TileFieldWidths();
    MulMono(0, Div(y, th), TilesX(w));
    OrOfDisjointFields(Div(y, th) * TilesX(w) + Div(x, 16), Mod(y, th) * 16 + Mod(x, 16), 16 * th);
  }

  lemma TileFieldWidths()
    ensures IsPowerOfTwo(128) && IsPowerOfTwo(256)
  {
    assert IsPowerOfTwo(2) && IsPowerOfTwo(8) && IsPowerOfTwo(32) && IsPowerOfTwo(64);
  }

  // ----- The layout is a bijection ----------------------------------------

  /** The pixel stored at address a. */
  function PixelX(th: nat, w: nat, a: nat): nat
    requires th > 0 && w > 0
  {
    Mod(Div(a, 16 * th), TilesX(w)) * 16 + Mod(Mod(a, 16 * th), 16)
  }

  function PixelY(th: nat, w: nat, a: nat): nat
    requires th > 0 && w > 0
  {
    MulMono(0, Div(Div(a, 16 * th), TilesX(w)), th);
    Div(Div(a, 16 * th), TilesX(w)) * th + Div(Mod(a, 16 * th), 16)
  }

  lemma RowsOfTiles(th: nat, h: nat)
    requires th > 0
    ensures h <= TilesY(th, h) * th
  {
    hide Div, Mod;
    DivMod(h + th - 1, th);
  }

  /** Every pixel of the padded plane has an address of its own inside it. */
  lemma AddrThenInverse(th: nat, w: nat, h: nat, x: nat, y: nat)
    requires th > 0 && x < 16 * TilesX(w) && 0 <= y < TilesY(th, h) * th
    ensures w > 0 && TileAddr(th, w, x, y) < PaddedSize(th, w, h)
    ensures PixelX(th, w, TileAddr(th, w, x, y)) == x && PixelY(th, w, TileAddr(th, w, x, y)) == y
  {
    hide Div, Mod, TilesY;
    var nx := TilesX(w);
    DivMod(x, 16);
    DivMod(y, th);
    MulMono(TilesY(th, h), Div(y, th), th);
    MulMono(Div(y, th) + 1, TilesY(th, h), nx);
    MulMono(0, Div(y, th), nx);
    var tile := Div(y, th) * nx + Div(x, 16);
    assert (Div(y, th) + 1) * nx == Div(y, th) * nx + nx;
    MulMono(tile + 1, TilesY(th, h) * nx, 16 * th);
    var low := Mod(y, th) * 16 + Mod(x, 16);
    assert (tile + 1) * (16 * th) == tile * (16 * th) + 16 * th;
    DivModUnique(TileAddr(th, w, x, y), 16 * th, tile, low);
    DivModUnique(low, 16, Mod(y, th), Mod(x, 16));
    DivModUnique(tile, nx, Div(y, th), Div(x, 16));
  }

  /** Every byte of the padded plane is the address of exactly one of its pixels. */
  lemma InverseThenAddr(th: nat, w: nat, h: nat, a: nat)
    requires th > 0 && w > 0 && a < PaddedSize(th, w, h)
    ensures PixelX(th, w, a) < 16 * TilesX(w) && PixelY(th, w, a) < TilesY(th, h) * th
    ensures TileAddr(th, w, PixelX(th, w, a), PixelY(th, w, a)) == a
  {
    hide Div, Mod, TilesY, TilesX;
    var (nx, ny) := (TilesX(w), TilesY(th, h));
    TilesAcross(w);
    DivMod(a, 16 * th);
    var (tile, low) := (Div(a, 16 * th), Mod(a, 16 * th));
    DivMod(tile, nx);
    DivMod(low, 16);
    MulMono(ny * nx, tile, 16 * th);
    var (ty, tx) := (Div(tile, nx), Mod(tile, nx));
    MulMono(ny, ty, nx);
    DivModUnique(tx * 16 + Mod(low, 16), 16, tx, Mod(low, 16));
    MulMono(0, ty, th);
    DivModUnique(ty * th + Div(low, 16), th, ty, Div(low, 16));
    MulMono(ty + 1, ny, th);
    assert (ty + 1) * th == ty * th + th;
  }

  lemma TilesAcross(w: nat)
    ensures w <= 16 * TilesX(w) && (w > 0 ==> TilesX(w) > 0)
  {}

  // ----- Steps inside a tile ----------------------------------------------

  /** A row of a tile is 16 consecutive bytes, and the next row follows it. */
  lemma TileStep(th: nat, w: nat, x: nat, y: nat, dx: nat, dy: nat)
    requires th > 0 && Mod(x, 16) + dx < 16 && Mod(y, th) + dy < th
    ensures TileAddr(th, w, x + dx, y + dy) == TileAddr(th, w, x, y) + 16 * dy + dx
  {
    hide Div, Mod;
    DivMod(x, 16);
    DivMod(y, th);
    DivModUnique(x + dx, 16, Div(x, 16), Mod(x, 16) + dx);
    DivModUnique(y + dy, th, Div(y, th), Mod(y, th) + dy);
  }

  /** The first byte of a tile, as the converters compute it. */
  lemma TileBase(th: nat, w: nat, i: nat, j: nat)
    requires th > 0 && Mod(i, th) == 0 && Mod(j, 16) == 0
    ensures TileAddr(th, w, j, i) == (w + 15) / 16 * 16 * i + j * th
  {
    hide Div, Mod;
    DivMod(i, th);
    DivMod(j, 16);
    var (p, q, nx) := (Div(i, th), Div(j, 16), TilesX(w));
    assert (p * nx + q) * (16 * th) == nx * 16 * (p * th) + q * 16 * th;
  }
}
