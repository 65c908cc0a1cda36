/** copy_mfc_data of libcsc/csc.c: taking row padding out of a decoder's buffers, and putting it into an encoder's. */
module MfcCopy {
  import opened Bytes
  import opened StridedRows

  datatype Geometry = Geometry(width: nat, height: nat, cropWidth: nat, cropHeight: nat)

  /** The plane buffers of a picture: luma or RGB, then U or UV, then V. */
  datatype Planes = Planes(p0: array<byte>, p1: array<byte>, p2: array<byte>)

  /** The groups of source formats copy_mfc_data tells apart; unit is 2 for P010, else 1. */
  datatype Kind = PlanarPadded | SemiPadded(unit: nat) | PlanarPacked | SemiPacked(unit: nat) | Rgb | Other

  datatype Result = ErrorNone | ErrorUnsupportFormat

  predicate Distinct(p: Planes) {
    p.p0 != p.p1 && p.p0 != p.p2 && p.p1 != p.p2
  }

  predicate Apart(a: Planes, b: Planes) {
    && a.p0 != b.p0 && a.p0 != b.p1 && a.p0 != b.p2
    && a.p1 != b.p0 && a.p1 != b.p1 && a.p1 != b.p2
    && a.p2 != b.p0 && a.p2 != b.p1 && a.p2 != b.p2
  }

  function Align16(x: nat): nat {
    (x + 15) / 16 * 16
  }

  // ----- Pictures ---------------------------------------------------------

  /** The contents of three planes. */
  datatype Contents = Contents(p0: seq<byte>, p1: seq<byte>, p2: seq<byte>)

  function Read(p: Planes): Contents
    reads p.p0, p.p1, p.p2
  {
    Contents(p.p0[..], p.p1[..], p.p2[..])
  }

  /** Three planes with rows of c and c/2 bytes, at their strides. */
  predicate HoldsPlanar(p: Contents, stride: nat, half: nat, c: nat, h: nat) {
    && Holds(|p.p0|, stride, c, h)
    && Holds(|p.p1|, half, c / 2, h / 2)
    && Holds(|p.p2|, half, c / 2, h / 2)
  }

  function PlanarPicture(p: Contents, stride: nat, half: nat, c: nat, h: nat): Contents
    requires HoldsPlanar(p, stride, half, c, h)
  {
    Contents(Gather(p.p0, stride, c, h), Gather(p.p1, half, c / 2, h / 2), Gather(p.p2, half, c / 2, h / 2))
  }

  /** A luma plane and an interleaved colour plane with rows of n bytes, at one stride. */
  predicate HoldsSemi(p: Contents, stride: nat, n: nat, h: nat) {
    Holds(|p.p0|, stride, n, h) && Holds(|p.p1|, stride, n, h / 2)
  }

  function SemiPicture(p: Contents, stride: nat, n: nat, h: nat): (seq<byte>, seq<byte>)
    requires HoldsSemi(p, stride, n, h)
  {
    (Gather(p.p0, stride, n, h), Gather(p.p1, stride, n, h / 2))
  }

  // ----- What a copy leaves alone -----------------------------------------

  /** Only the bytes of the rows have changed. */
  ghost predicate KeepsGaps(before: seq<byte>, after: seq<byte>, stride: nat, n: nat, rows: nat) {
    |before| == |after| && forall k {:trigger after[k]} | 0 <= k < |after| && !InRows(k, stride, n, rows) :: after[k] == before[k]
  }

  /** Only the first m bytes have changed. */
  predicate KeepsBehind(before: seq<byte>, after: seq<byte>, m: nat) {
    m <= |after| == |before| && after[m..] == before[m..]
  }

  // ----- The copies -------------------------------------------------------

  method RemovePlanar(src: Planes, g: Geometry, dst: Planes)
    requires Distinct(dst) && Apart(dst, src)
    requires HoldsPlanar(Read(src), g.width, Align16(g.cropWidth / 2), g.cropWidth, g.cropHeight)
    requires HoldsPlanar(Read(dst), g.cropWidth, g.cropWidth / 2, g.cropWidth, g.cropHeight)
    modifies dst.p0, dst.p1, dst.p2
    ensures PlanarPicture(Read(dst), g.cropWidth, g.cropWidth / 2, g.cropWidth, g.cropHeight) ==
            PlanarPicture(Read(src), g.width, Align16(g.cropWidth / 2), g.cropWidth, g.cropHeight)
    ensures KeepsGaps(old(dst.p0[..]), dst.p0[..], g.cropWidth, g.cropWidth, g.cropHeight)
    ensures KeepsGaps(old(dst.p1[..]), dst.p1[..], g.cropWidth / 2, g.cropWidth / 2, g.cropHeight / 2)
    ensures KeepsGaps(old(dst.p2[..]), dst.p2[..], g.cropWidth / 2, g.cropWidth / 2, g.cropHeight / 2)
  {
    hide Gather, Holds, Align16, InRows;
    CopyRows(dst.p0, g.cropWidth, src.p0, g.width, g.cropWidth, g.cropHeight);
    CopyRows(dst.p1, g.cropWidth / 2, src.p1, Align16(g.cropWidth / 2), g.cropWidth / 2, g.cropHeight / 2);
    CopyRows(dst.p2, g.cropWidth / 2, src.p2, Align16(g.cropWidth / 2), g.cropWidth / 2, g.cropHeight / 2);
  }

  method RemoveSemi(src: Planes, stride: nat, n: nat, h: nat, dst: Planes)
    requires Distinct(dst) && Apart(dst, src)
    requires HoldsSemi(Read(src), stride, n, h) && HoldsSemi(Read(dst), n, n, h)
    modifies dst.p0, dst.p1
    ensures SemiPicture(Read(dst), n, n, h) == SemiPicture(Read(src), stride, n, h)
    ensures KeepsGaps(old(dst.p0[..]), dst.p0[..], n, n, h) && KeepsGaps(old(dst.p1[..]), dst.p1[..], n, n, h / 2)
  {
    hide Gather, Holds, InRows;
    CopyRows(dst.p0, n, src.p0, stride, n, h);
    CopyRows(dst.p1, n, src.p1, stride, n, h / 2);
  }

  /** Equal widths on both sides: the source is copied as it lies. */
  predicate SameWidths(sg: Geometry, dg: Geometry) {
    sg.width == dg.width && sg.cropWidth == dg.cropWidth
  }

  /** The distance of source rows in the encoder direction. */
  function PackedStride(sg: Geometry, dg: Geometry): nat {
    if SameWidths(sg, dg) then sg.width else sg.cropWidth
  }

  /** What that copy leaves alone. */
  ghost predicate PlaneKept(before: seq<byte>, after: seq<byte>, stride: nat, n: nat, rows: nat, whole: bool) {
    if whole then KeepsBehind(before, after, RowStart(stride, rows)) else KeepsGaps(before, after, stride, n, rows)
  }

  /** Copies a plane: as one block when the widths agree, else row by row to the destination's stride. */
  method CopyPlane(dst: array<byte>, dstStride: nat, src: array<byte>, srcStride: nat, n: nat, rows: nat, whole: bool)
    requires dst != src && n <= dstStride
    requires Holds(dst.Length, dstStride, n, rows) && Holds(src.Length, srcStride, n, rows)
    requires whole ==> srcStride == dstStride
                       && RowStart(dstStride, rows) <= dst.Length && RowStart(dstStride, rows) <= src.Length
    modifies dst
    ensures Gather(dst[..], dstStride, n, rows) == Gather(src[..], srcStride, n, rows)
    ensures PlaneKept(old(dst[..]), dst[..], dstStride, n, rows, whole)
  {
    hide Gather, Holds, RowStart, InRows;
    if whole {
      ghost var m := RowStart(dstStride, rows);
      Memcpy(dst, 0, src, 0, RowStart(dstStride, rows));
      assert dst[..m] == src[..m];
      WholeHolds(dstStride, n, rows);
      GatherFrame(dst[..], src[..], m, dstStride, n, rows);
    } else {
      CopyRows(dst, dstStride, src, srcStride, n, rows);
    }
  }

  lemma WholeHolds(stride: nat, n: nat, rows: nat)
    requires n <= stride
    ensures Holds(RowStart(stride, rows), stride, n, rows)
  {
    hide RowStart;
    if rows > 0 {
      NextRow(stride, rows - 1);
    }
  }

  predicate WholeFits(p: Contents, n: nat, m: nat) {
    n <= |p.p0| && m <= |p.p1|
  }

  method AddPlanar(src: Planes, sg: Geometry, dst: Planes, dg: Geometry)
    requires Distinct(dst) && Apart(dst, src) && sg.cropWidth <= dg.width
    requires HoldsPlanar(Read(src), PackedStride(sg, dg), sg.cropWidth / 2, sg.cropWidth, sg.height)
    requires HoldsPlanar(Read(dst), dg.width, Align16(dg.width / 2), sg.cropWidth, sg.height)
    requires SameWidths(sg, dg) ==> RowStart(sg.width, sg.height) <= src.p0.Length
                                    && RowStart(sg.width, sg.height) <= dst.p0.Length
    modifies dst.p0, dst.p1, dst.p2
    ensures PlanarPicture(Read(dst), dg.width, Align16(dg.width / 2), sg.cropWidth, sg.height) ==
            PlanarPicture(Read(src), PackedStride(sg, dg), sg.cropWidth / 2, sg.cropWidth, sg.height)
    ensures PlaneKept(old(dst.p0[..]), dst.p0[..], dg.width, sg.cropWidth, sg.height, SameWidths(sg, dg))
    ensures KeepsGaps(old(dst.p1[..]), dst.p1[..], Align16(dg.width / 2), sg.cropWidth / 2, sg.height / 2)
    ensures KeepsGaps(old(dst.p2[..]), dst.p2[..], Align16(dg.width / 2), sg.cropWidth / 2, sg.height / 2)
  {
    var half := Align16(dg.width / 2);
    HalfFits(sg.cropWidth, dg.width);
    hide Gather, Holds, Align16, RowStart, InRows, PlaneKept;
    CopyPlane(dst.p0, dg.width, src.p0, PackedStride(sg, dg), sg.cropWidth, sg.height, SameWidths(sg, dg));
    CopyRows(dst.p1, half, src.p1, sg.cropWidth / 2, sg.cropWidth / 2, sg.height / 2);
    CopyRows(dst.p2, half, src.p2, sg.cropWidth / 2, sg.cropWidth / 2, sg.height / 2);
  }

  lemma HalfFits(c: nat, w: nat)
    requires c <= w
    ensures c / 2 <= Align16(w / 2)
  {}

  method AddSemi(src: Planes, srcStride: nat, dst: Planes, dstStride: nat, n: nat, h: nat, whole: bool)
    requires Distinct(dst) && Apart(dst, src) && n <= dstStride
    requires HoldsSemi(Read(src), srcStride, n, h) && HoldsSemi(Read(dst), dstStride, n, h)
    requires whole ==> srcStride == dstStride
                       && WholeFits(Read(src), RowStart(dstStride, h), RowStart(dstStride, h / 2))
                       && WholeFits(Read(dst), RowStart(dstStride, h), RowStart(dstStride, h / 2))
    modifies dst.p0, dst.p1
    ensures SemiPicture(Read(dst), dstStride, n, h) == SemiPicture(Read(src), srcStride, n, h)
    ensures PlaneKept(old(dst.p0[..]), dst.p0[..], dstStride, n, h, whole)
    ensures PlaneKept(old(dst.p1[..]), dst.p1[..], dstStride, n, h / 2, whole)
  {
    hide Gather, Holds, RowStart, InRows, PlaneKept;
    CopyPlane(dst.p0, dstStride, src.p0, srcStride, n, h, whole);
    CopyPlane(dst.p1, dstStride, src.p1, srcStride, n, h / 2, whole);
  }

  // ----- The dispatch -----------------------------------------------------

  /** What the caller's buffers must hold for a copy. */
  predicate Ready(kind: Kind, s: Contents, sg: Geometry, d: Contents, dg: Geometry) {
    match kind
    case PlanarPadded =>
      && HoldsPlanar(s, sg.width, Align16(sg.cropWidth / 2), sg.cropWidth, sg.cropHeight)
      && HoldsPlanar(d, sg.cropWidth, sg.cropWidth / 2, sg.cropWidth, sg.cropHeight)
    case SemiPadded(u) =>
      && HoldsSemi(s, sg.width * u, sg.cropWidth * u, sg.cropHeight)
      && HoldsSemi(d, sg.cropWidth * u, sg.cropWidth * u, sg.cropHeight)
    case PlanarPacked =>
      && sg.cropWidth <= dg.width
      && HoldsPlanar(s, PackedStride(sg, dg), sg.cropWidth / 2, sg.cropWidth, sg.height)
      && HoldsPlanar(d, dg.width, Align16(dg.width / 2), sg.cropWidth, sg.height)
      && (SameWidths(sg, dg) ==> RowStart(sg.width, sg.height) <= |s.p0| && RowStart(sg.width, sg.height) <= |d.p0|)
    case SemiPacked(u) =>
      && sg.cropWidth * u <= dg.width * u
      && HoldsSemi(s, PackedStride(sg, dg) * u, sg.cropWidth * u, sg.height)
      && HoldsSemi(d, dg.width * u, sg.cropWidth * u, sg.height)
      && (SameWidths(sg, dg) ==>
            && WholeFits(s, RowStart(dg.width * u, sg.height), RowStart(dg.width * u, sg.height / 2))
            && WholeFits(d, RowStart(dg.width * u, sg.height), RowStart(dg.width * u, sg.height / 2)))
    case Rgb => RowStart(4 * sg.width, sg.height) <= |s.p0| && RowStart(4 * sg.width, sg.height) <= |d.p0|
    case Other => true
  }

  /** Both sides show the same picture. */
  predicate SamePicture(kind: Kind, s: Contents, sg: Geometry, d: Contents, dg: Geometry)
    requires Ready(kind, s, sg, d, dg)
  {
    match kind
    case PlanarPadded =>
      PlanarPicture(d, sg.cropWidth, sg.cropWidth / 2, sg.cropWidth, sg.cropHeight) ==
      PlanarPicture(s, sg.width, Align16(sg.cropWidth / 2), sg.cropWidth, sg.cropHeight)
    case SemiPadded(u) =>
      SemiPicture(d, sg.cropWidth * u, sg.cropWidth * u, sg.cropHeight) ==
      SemiPicture(s, sg.width * u, sg.cropWidth * u, sg.cropHeight)
    case PlanarPacked =>
      PlanarPicture(d, dg.width, Align16(dg.width / 2), sg.cropWidth, sg.height) ==
      PlanarPicture(s, PackedStride(sg, dg), sg.cropWidth / 2, sg.cropWidth, sg.height)
    case SemiPacked(u) =>
      SemiPicture(d, dg.width * u, sg.cropWidth * u, sg.height) ==
      SemiPicture(s, PackedStride(sg, dg) * u, sg.cropWidth * u, sg.height)
    case Rgb => d.p0[..RowStart(4 * sg.width, sg.height)] == s.p0[..RowStart(4 * sg.width, sg.height)]
    case Other => true
  }

  /** What the destination keeps of its old bytes. */
  ghost predicate Kept(kind: Kind, sg: Geometry, dg: Geometry, before: Contents, after: Contents) {
    var (c, h) := (sg.cropWidth, sg.cropHeight);
    match kind
    case PlanarPadded =>
      && KeepsGaps(before.p0, after.p0, c, c, h)
      && KeepsGaps(before.p1, after.p1, c / 2, c / 2, h / 2) && KeepsGaps(before.p2, after.p2, c / 2, c / 2, h / 2)
    case SemiPadded(u) =>
      && KeepsGaps(before.p0, after.p0, c * u, c * u, h) && KeepsGaps(before.p1, after.p1, c * u, c * u, h / 2)
      && after.p2 == before.p2
    case PlanarPacked =>
      && PlaneKept(before.p0, after.p0, dg.width, c, sg.height, SameWidths(sg, dg))
      && KeepsGaps(before.p1, after.p1, Align16(dg.width / 2), c / 2, sg.height / 2)
      && KeepsGaps(before.p2, after.p2, Align16(dg.width / 2), c / 2, sg.height / 2)
    case SemiPacked(u) =>
      && PlaneKept(before.p0, after.p0, dg.width * u, c * u, sg.height, SameWidths(sg, dg))
      && PlaneKept(before.p1, after.p1, dg.width * u, c * u, sg.height / 2, SameWidths(sg, dg))
      && after.p2 == before.p2
    case Rgb => KeepsBehind(before.p0, after.p0, RowStart(4 * sg.width, sg.height)) && after.p1 == before.p1 && after.p2 == before.p2
    case Other => after == before
  }

  /** copy_mfc_data. */
  method CopyMfcData(kind: Kind, src: Planes, sg: Geometry, dst: Planes, dg: Geometry) returns (ret: Result)
    requires Distinct(dst) && Apart(dst, src) && Ready(kind, Read(src), sg, Read(dst), dg)
    modifies dst.p0, dst.p1, dst.p2
    ensures ret == if kind.Other? then ErrorUnsupportFormat else ErrorNone
    ensures Ready(kind, Read(src), sg, Read(dst), dg) && SamePicture(kind, Read(src), sg, Read(dst), dg)
    ensures Kept(kind, sg, dg, old(Read(dst)), Read(dst))
  {
    hide Gather, Holds, RowStart, Align16, KeepsGaps, KeepsBehind, PlaneKept;
    ret := ErrorNone;
    match kind
    case PlanarPadded => RemovePlanar(src, sg, dst);
    case SemiPadded(u) => RemoveSemi(src, sg.width * u, sg.cropWidth * u, sg.cropHeight, dst);
    case PlanarPacked => AddPlanar(src, sg, dst, dg);
    case SemiPacked(u) =>
      AddSemi(src, PackedStride(sg, dg) * u, dst, dg.width * u, sg.cropWidth * u, sg.height, SameWidths(sg, dg));
    case Rgb => CopyRgb(dst.p0, src.p0, RowStart(4 * sg.width, sg.height));
    case Other => ret := ErrorUnsupportFormat;
  }

  method CopyRgb(dst: array<byte>, src: array<byte>, n: nat)
    requires dst != src && n <= dst.Length && n <= src.Length
    modifies dst
    ensures dst[..n] == src[..n] && KeepsBehind(old(dst[..]), dst[..], n)
  {
    Memcpy(dst, 0, src, 0, n);
    assert dst[..0 + n] == dst[..0] + src[0..0 + n];
  }

  /** Towards a decoder, row by row: source rows of luma lie the full width apart, those of colour the padded half of the
      cropped width; the rows of the destination are packed. */
  lemma DecoderBytes(s: Contents, sg: Geometry, d: Contents, dg: Geometry, i: nat, k: nat)
    requires Ready(PlanarPadded, s, sg, d, dg) && SamePicture(PlanarPadded, s, sg, d, dg)
    ensures i < sg.cropHeight && k < sg.cropWidth ==>
              var (to, from) := (i * sg.cropWidth + k, i * sg.width + k);
              0 <= to < |d.p0| && 0 <= from < |s.p0| && d.p0[to] == s.p0[from]
    ensures i < sg.cropHeight / 2 && k < sg.cropWidth / 2 ==>
              var (to, from) := (i * (sg.cropWidth / 2) + k, i * ((sg.cropWidth / 2 + 15) / 16 * 16) + k);
              && 0 <= to < |d.p1| && 0 <= from < |s.p1| && d.p1[to] == s.p1[from]
              && 0 <= to < |d.p2| && 0 <= from < |s.p2| && d.p2[to] == s.p2[from]
  {
    hide Gather, Holds;
    var (c, h) := (sg.cropWidth, sg.cropHeight);
    if i < h && k < c {
      SameRows(s.p0, sg.width, d.p0, c, c, h, i, k);
    }
    if i < h / 2 && k < c / 2 {
      SameRows(s.p1, Align16(c / 2), d.p1, c / 2, c / 2, h / 2, i, k);
      SameRows(s.p2, Align16(c / 2), d.p2, c / 2, c / 2, h / 2, i, k);
    }
  }

  /** The same for semi-planar pictures, with samples of `unit` bytes. */
  lemma DecoderSemiBytes(unit: nat, s: Contents, sg: Geometry, d: Contents, dg: Geometry, i: nat, k: nat)
    requires Ready(SemiPadded(unit), s, sg, d, dg) && SamePicture(SemiPadded(unit), s, sg, d, dg) && k < sg.cropWidth * unit
    ensures var (to, from) := (i * (sg.cropWidth * unit) + k, i * (sg.width * unit) + k);
            && (i < sg.cropHeight ==> 0 <= to < |d.p0| && 0 <= from < |s.p0| && d.p0[to] == s.p0[from])
            && (i < sg.cropHeight / 2 ==> 0 <= to < |d.p1| && 0 <= from < |s.p1| && d.p1[to] == s.p1[from])
  {
    hide Gather, Holds;
    var (n, h) := (sg.cropWidth * unit, sg.cropHeight);
    if i < h {
      SameRows(s.p0, sg.width * unit, d.p0, n, n, h, i, k);
    }
    if i < h / 2 {
      SameRows(s.p1, sg.width * unit, d.p1, n, n, h / 2, i, k);
    }
  }

  /** Towards an encoder: rows of the destination lie its width apart, those of colour the padded half of that; source rows
      are packed, except that luma rows of equal widths on both sides lie that width apart. */
  lemma EncoderBytes(s: Contents, sg: Geometry, d: Contents, dg: Geometry, i: nat, k: nat)
    requires Ready(PlanarPacked, s, sg, d, dg) && SamePicture(PlanarPacked, s, sg, d, dg)
    ensures i < sg.height && k < sg.cropWidth ==>
              var from := if sg.width == dg.width && sg.cropWidth == dg.cropWidth then i * sg.width + k else i * sg.cropWidth + k;
              0 <= i * dg.width + k < |d.p0| && 0 <= from < |s.p0| && d.p0[i * dg.width + k] == s.p0[from]
    ensures i < sg.height / 2 && k < sg.cropWidth / 2 ==>
              var (to, from) := (i * ((dg.width / 2 + 15) / 16 * 16) + k, i * (sg.cropWidth / 2) + k);
              && 0 <= to < |d.p1| && 0 <= from < |s.p1| && d.p1[to] == s.p1[from]
              && 0 <= to < |d.p2| && 0 <= from < |s.p2| && d.p2[to] == s.p2[from]
  {
    hide Gather, Holds;
    var (c, h) := (sg.cropWidth, sg.height);
    if i < h && k < c {
      SameRows(s.p0, PackedStride(sg, dg), d.p0, dg.width, c, h, i, k);
    }
    if i < h / 2 && k < c / 2 {
      SameRows(s.p1, c / 2, d.p1, Align16(dg.width / 2), c / 2, h / 2, i, k);
      SameRows(s.p2, c / 2, d.p2, Align16(dg.width / 2), c / 2, h / 2, i, k);
    }
  }

  lemma EncoderSemiBytes(unit: nat, s: Contents, sg: Geometry, d: Contents, dg: Geometry, i: nat, k: nat)
    requires Ready(SemiPacked(unit), s, sg, d, dg) && SamePicture(SemiPacked(unit), s, sg, d, dg) && k < sg.cropWidth * unit
    ensures var to := i * (dg.width * unit) + k;
            var from := if sg.width == dg.width && sg.cropWidth == dg.cropWidth then i * (sg.width * unit) + k
                        else i * (sg.cropWidth * unit) + k;
            && (i < sg.height ==> 0 <= to < |d.p0| && 0 <= from < |s.p0| && d.p0[to] == s.p0[from])
            && (i < sg.height / 2 ==> 0 <= to < |d.p1| && 0 <= from < |s.p1| && d.p1[to] == s.p1[from])
  {
    hide Gather, Holds;
    var (n, h) := (sg.cropWidth * unit, sg.height);
    if i < h {
      SameRows(s.p0, PackedStride(sg, dg) * unit, d.p0, dg.width * unit, n, h, i, k);
    }
    if i < h / 2 {
      SameRows(s.p1, PackedStride(sg, dg) * unit, d.p1, dg.width * unit, n, h / 2, i, k);
    }
  }

  /** What lies between the rows of the destination, and behind the last one, stays. */
  lemma GapStays(before: seq<byte>, after: seq<byte>, stride: nat, n: nat, rows: nat, i: nat, k: nat)
    requires KeepsGaps(before, after, stride, n, rows) && n <= stride && k < stride && (n <= k || i >= rows)
    ensures |after| == |before| && (0 <= i * stride + k < |after| ==> after[i * stride + k] == before[i * stride + k])
  {
    GapBytes(stride, n, rows, i, k);
    hide InRows;
  }

  /** Towards a decoder the bytes behind the packed rows of all planes stay. */
  lemma DecoderKeeps(sg: Geometry, dg: Geometry, before: Contents, after: Contents, i: nat, k: nat)
    requires Kept(PlanarPadded, sg, dg, before, after)
    ensures |after.p0| == |before.p0| && |after.p1| == |before.p1| && |after.p2| == |before.p2|
    ensures i >= sg.cropHeight && k < sg.cropWidth ==>
              var at := i * sg.cropWidth + k;
              0 <= at < |after.p0| ==> after.p0[at] == before.p0[at]
    ensures i >= sg.cropHeight / 2 && k < sg.cropWidth / 2 ==>
              var at := i * (sg.cropWidth / 2) + k;
              && (0 <= at < |after.p1| ==> after.p1[at] == before.p1[at])
              && (0 <= at < |after.p2| ==> after.p2[at] == before.p2[at])
  {
    hide KeepsGaps;
    var (c, h) := (sg.cropWidth, sg.cropHeight);
    SameSizes(before, after, sg);
    if i >= h && k < c {
      GapStays(before.p0, after.p0, c, c, h, i, k);
    }
    if i >= h / 2 && k < c / 2 {
      GapStays(before.p1, after.p1, c / 2, c / 2, h / 2, i, k);
      GapStays(before.p2, after.p2, c / 2, c / 2, h / 2, i, k);
    }
  }

  lemma SameSizes(before: Contents, after: Contents, sg: Geometry)
    requires var (c, h) := (sg.cropWidth, sg.cropHeight);
             && KeepsGaps(before.p0, after.p0, c, c, h) && KeepsGaps(before.p1, after.p1, c / 2, c / 2, h / 2)
             && KeepsGaps(before.p2, after.p2, c / 2, c / 2, h / 2)
    ensures |after.p0| == |before.p0| && |after.p1| == |before.p1| && |after.p2| == |before.p2|
  {}

  /** Towards an encoder the padding stays: of luma when the copy goes row by row, of colour always. */
  lemma EncoderKeeps(sg: Geometry, dg: Geometry, before: Contents, after: Contents, i: nat, k: nat)
    requires Kept(PlanarPacked, sg, dg, before, after) && sg.cropWidth <= dg.width
    ensures !(sg.width == dg.width && sg.cropWidth == dg.cropWidth) && k < dg.width && (sg.cropWidth <= k || i >= sg.height) ==>
              var at := i * dg.width + k;
              |after.p0| == |before.p0| && (0 <= at < |after.p0| ==> after.p0[at] == before.p0[at])
    ensures var half := (dg.width / 2 + 15) / 16 * 16;
            k < half && (sg.cropWidth / 2 <= k || i >= sg.height / 2) ==>
              var at := i * half + k;
              && |after.p1| == |before.p1| && (0 <= at < |after.p1| ==> after.p1[at] == before.p1[at])
              && |after.p2| == |before.p2| && (0 <= at < |after.p2| ==> after.p2[at] == before.p2[at])
  {
    hide KeepsGaps, KeepsBehind, RowStart;
    var half := Align16(dg.width / 2);
    HalfFits(sg.cropWidth, dg.width);
    if !SameWidths(sg, dg) && k < dg.width && (sg.cropWidth <= k || i >= sg.height) {
      GapStays(before.p0, after.p0, dg.width, sg.cropWidth, sg.height, i, k);
    }
    if k < half && (sg.cropWidth / 2 <= k || i >= sg.height / 2) {
      GapStays(before.p1, after.p1, half, sg.cropWidth / 2, sg.height / 2, i, k);
      GapStays(before.p2, after.p2, half, sg.cropWidth / 2, sg.height / 2, i, k);
    }
  }

  /** The same for semi-planar pictures, in both directions: n bytes of every row of the destination's stride are written. */
  lemma SemiKeeps(kind: Kind, sg: Geometry, dg: Geometry, before: Contents, after: Contents, i: nat, k: nat)
    requires kind.SemiPadded? || (kind.SemiPacked? && !(sg.width == dg.width && sg.cropWidth == dg.cropWidth))
    requires Kept(kind, sg, dg, before, after) && sg.cropWidth * kind.unit <= dg.width * kind.unit
    ensures var n := sg.cropWidth * kind.unit;
            var (stride, rows) := if kind.SemiPadded? then (n, sg.cropHeight) else (dg.width * kind.unit, sg.height);
            && after.p2 == before.p2
            && (k < stride && (n <= k || i >= rows) ==>
                  |after.p0| == |before.p0| && (0 <= i * stride + k < |after.p0| ==> after.p0[i * stride + k] == before.p0[i * stride + k]))
            && (k < stride && (n <= k || i >= rows / 2) ==>
                  |after.p1| == |before.p1| && (0 <= i * stride + k < |after.p1| ==> after.p1[i * stride + k] == before.p1[i * stride + k]))
  {
    hide KeepsGaps, KeepsBehind, RowStart;
    var n := sg.cropWidth * kind.unit;
    var (stride, rows) := if kind.SemiPadded? then (n, sg.cropHeight) else (dg.width * kind.unit, sg.height);
    if k < stride && (n <= k || i >= rows) {
      GapStays(before.p0, after.p0, stride, n, rows, i, k);
    }
    if k < stride && (n <= k || i >= rows / 2) {
      GapStays(before.p1, after.p1, stride, n, rows / 2, i, k);
    }
  }

  /** A plane or a picture copied as one block: the bytes behind it stay. */
  lemma BlockKeeps(before: seq<byte>, after: seq<byte>, stride: nat, n: nat, rows: nat, k: nat)
    requires PlaneKept(before, after, stride, n, rows, true) && rows * stride <= k < |after|
    ensures |after| == |before| && after[k] == before[k]
  {
    var m := RowStart(stride, rows);
    assert after[m..][k - m] == before[m..][k - m];
  }

  /** An RGB picture is copied as it is, and nothing else. */
  lemma RgbCopied(s: Contents, sg: Geometry, before: Contents, d: Contents, dg: Geometry, k: nat)
    requires Ready(Rgb, s, sg, d, dg) && SamePicture(Rgb, s, sg, d, dg) && Kept(Rgb, sg, dg, before, d)
    ensures d.p1 == before.p1 && d.p2 == before.p2 && |d.p0| == |before.p0|
    ensures k < |d.p0| ==> if k < sg.height * (4 * sg.width) then k < |s.p0| && d.p0[k] == s.p0[k] else d.p0[k] == before.p0[k]
  {
    var n := RowStart(4 * sg.width, sg.height);
    if k < n <= |d.p0| {
      assert d.p0[..n][k] == s.p0[..n][k];
    } else if k < |d.p0| {
      assert d.p0[n..][k - n] == before.p0[n..][k - n];
    }
  }

  // ----- Adding padding and taking it out again ---------------------------

  /** The colour stride the encoder side derives from a padded width is the one the decoder side derives from the cropped
      width, unless the width is one more than a multiple of 32. */
  lemma StridesAgree(c: nat)
    ensures Align16(Align16(c) / 2) == Align16(c / 2) <==> c % 32 != 1
  {
    var (q, r) := (c / 32, c % 32);
    assert c == 32 * q + r;
    if r == 0 {
      Parts(c + 15, 16, 2 * q, 15);
      Parts(c / 2 + 15, 16, q, 15);
    } else if r <= 16 {
      Parts(c + 15, 16, 2 * q + 1, r - 1);
      assert Align16(c) == 32 * q + 16;
      Parts(Align16(c) / 2 + 15, 16, q + 1, 7);
      if r == 1 {
        Parts(c / 2 + 15, 16, q, 15);
      } else {
        Parts(c / 2 + 15, 16, q + 1, r / 2 - 1);
      }
    } else {
      Parts(c + 15, 16, 2 * q + 2, r - 17);
      assert Align16(c) == 32 * q + 32;
      Parts(Align16(c) / 2 + 15, 16, q + 1, 15);
      Parts(c / 2 + 15, 16, q + 1, r / 2 - 1);
    }
  }

  /** The geometry of a packed picture, and of the same picture with its rows padded to 16 bytes. */
  function PackedGeometry(c: nat, h: nat): Geometry {
    Geometry(c, h, c, h)
  }

  function PaddedGeometry(c: nat, h: nat): Geometry {
    Geometry(Align16(c), h, c, h)
  }

  /** Padding a packed planar picture and taking the padding out again leaves every plane as it was, for all widths that
      are even, and for the odd ones that are not one more than a multiple of 32. */
  lemma PlanarRoundTrip(c: nat, h: nat, packed: Contents, padded: Contents, back: Contents)
    requires c % 32 != 1
    requires Ready(PlanarPacked, packed, PackedGeometry(c, h), padded, PaddedGeometry(c, h))
    requires SamePicture(PlanarPacked, packed, PackedGeometry(c, h), padded, PaddedGeometry(c, h))
    requires Ready(PlanarPadded, padded, PaddedGeometry(c, h), back, PackedGeometry(c, h))
    requires SamePicture(PlanarPadded, padded, PaddedGeometry(c, h), back, PackedGeometry(c, h))
    requires RowStart(c, h) <= |packed.p0| && RowStart(c, h) <= |back.p0|
    requires RowStart(c / 2, h / 2) <= |packed.p1| && RowStart(c / 2, h / 2) <= |back.p1|
    requires RowStart(c / 2, h / 2) <= |packed.p2| && RowStart(c / 2, h / 2) <= |back.p2|
    ensures back.p0[..RowStart(c, h)] == packed.p0[..RowStart(c, h)]
    ensures back.p1[..RowStart(c / 2, h / 2)] == packed.p1[..RowStart(c / 2, h / 2)]
    ensures back.p2[..RowStart(c / 2, h / 2)] == packed.p2[..RowStart(c / 2, h / 2)]
  {
    StridesAgree(c);
    hide Gather, Holds, RowStart, Align16;
    GatherPacked(packed.p0, c, h);
    GatherPacked(back.p0, c, h);
    GatherPacked(packed.p1, c / 2, h / 2);
    GatherPacked(back.p1, c / 2, h / 2);
    GatherPacked(packed.p2, c / 2, h / 2);
    GatherPacked(back.p2, c / 2, h / 2);
  }

  /** The semi-planar round trip, for eight-bit and P010 pictures of any width. */
  lemma SemiRoundTrip(u: nat, c: nat, h: nat, packed: Contents, padded: Contents, back: Contents)
    requires Ready(SemiPacked(u), packed, PackedGeometry(c, h), padded, PaddedGeometry(c, h))
    requires SamePicture(SemiPacked(u), packed, PackedGeometry(c, h), padded, PaddedGeometry(c, h))
    requires Ready(SemiPadded(u), padded, PaddedGeometry(c, h), back, PackedGeometry(c, h))
    requires SamePicture(SemiPadded(u), padded, PaddedGeometry(c, h), back, PackedGeometry(c, h))
    requires RowStart(c * u, h) <= |packed.p0| && RowStart(c * u, h) <= |back.p0|
    requires RowStart(c * u, h / 2) <= |packed.p1| && RowStart(c * u, h / 2) <= |back.p1|
    ensures back.p0[..RowStart(c * u, h)] == packed.p0[..RowStart(c * u, h)]
    ensures back.p1[..RowStart(c * u, h / 2)] == packed.p1[..RowStart(c * u, h / 2)]
  {
    hide Gather, Holds, RowStart, Align16;
    GatherPacked(packed.p0, c * u, h);
    GatherPacked(back.p0, c * u, h);
    GatherPacked(packed.p1, c * u, h / 2);
    GatherPacked(back.p1, c * u, h / 2);
  }

  /** copy_mfc_data towards an encoder and then towards a decoder. */
  method PadAndRemove(packed: Planes, padded: Planes, back: Planes, c: nat, h: nat)
    requires c % 32 != 1
    requires Distinct(padded) && Apart(padded, packed) && Distinct(back) && Apart(back, padded) && Apart(back, packed)
    requires Whole(packed, c, h) && Whole(back, c, h)
    requires RowStart(Align16(c), h) <= padded.p0.Length
    requires RowStart(Align16(c / 2), h / 2) <= padded.p1.Length && RowStart(Align16(c / 2), h / 2) <= padded.p2.Length
    modifies padded.p0, padded.p1, padded.p2, back.p0, back.p1, back.p2
    ensures back.p0[..RowStart(c, h)] == packed.p0[..RowStart(c, h)]
    ensures back.p1[..RowStart(c / 2, h / 2)] == packed.p1[..RowStart(c / 2, h / 2)]
    ensures back.p2[..RowStart(c / 2, h / 2)] == packed.p2[..RowStart(c / 2, h / 2)]
  {
    StridesAgree(c);
    AlignedIsWide(c);
    AlignedIsWide(c / 2);
    hide Gather, RowStart, Align16, Holds;
    RowsFit(packed.p0.Length, c, c, h);
    RowsFit(back.p0.Length, c, c, h);
    RowsFit(padded.p0.Length, Align16(c), c, h);
    RowsFit(packed.p1.Length, c / 2, c / 2, h / 2);
    RowsFit(packed.p2.Length, c / 2, c / 2, h / 2);
    RowsFit(back.p1.Length, c / 2, c / 2, h / 2);
    RowsFit(back.p2.Length, c / 2, c / 2, h / 2);
    RowsFit(padded.p1.Length, Align16(c / 2), c / 2, h / 2);
    RowsFit(padded.p2.Length, Align16(c / 2), c / 2, h / 2);
    var r := CopyMfcData(PlanarPacked, packed, PackedGeometry(c, h), padded, PaddedGeometry(c, h));
    ghost var middle := Read(padded);
    r := CopyMfcData(PlanarPadded, padded, PaddedGeometry(c, h), back, PackedGeometry(c, h));
    PlanarRoundTrip(c, h, Read(packed), middle, Read(back));
  }

  /** The planes of a packed picture. */
  predicate Whole(p: Planes, c: nat, h: nat) {
    && RowStart(c, h) <= p.p0.Length
    && RowStart(c / 2, h / 2) <= p.p1.Length && RowStart(c / 2, h / 2) <= p.p2.Length
  }

  lemma AlignedIsWide(c: nat)
    ensures c <= Align16(c)
    ensures Align16(c) == c ==> c % 16 == 0
  {}

  lemma RowsFit(length: nat, stride: nat, n: nat, rows: nat)
    requires n <= stride && RowStart(stride, rows) <= length
    ensures Holds(length, stride, n, rows)
  {
    hide RowStart;
    if rows > 0 {
      NextRow(stride, rows - 1);
    }
  }

  // ----- When the round trip holds ----------------------------------------

  /** padded is what the encoder direction makes of a packed picture, and back what the decoder direction makes of it. */
  predicate ThereAndBack(c: nat, h: nat, packed: Contents, padded: Contents, back: Contents) {
    && Ready(PlanarPacked, packed, PackedGeometry(c, h), padded, PaddedGeometry(c, h))
    && SamePicture(PlanarPacked, packed, PackedGeometry(c, h), padded, PaddedGeometry(c, h))
    && Ready(PlanarPadded, padded, PaddedGeometry(c, h), back, PackedGeometry(c, h))
    && SamePicture(PlanarPadded, padded, PaddedGeometry(c, h), back, PackedGeometry(c, h))
    && WholeContents(packed, c, h) && WholeContents(back, c, h)
  }

  predicate WholeContents(p: Contents, c: nat, h: nat) {
    && RowStart(c, h) <= |p.p0| && RowStart(c / 2, h / 2) <= |p.p1| && RowStart(c / 2, h / 2) <= |p.p2|
  }

  predicate SamePlanes(c: nat, h: nat, p: Contents, q: Contents)
    requires WholeContents(p, c, h) && WholeContents(q, c, h)
  {
    && p.p0[..RowStart(c, h)] == q.p0[..RowStart(c, h)]
    && p.p1[..RowStart(c / 2, h / 2)] == q.p1[..RowStart(c / 2, h / 2)]
    && p.p2[..RowStart(c / 2, h / 2)] == q.p2[..RowStart(c / 2, h / 2)]
  }

  /** Every picture comes back exactly when the strides agree, or there are no two colour rows to keep apart. */
  lemma RoundTripIsExact(c: nat, h: nat)
    ensures (c % 32 != 1 || c == 1 || h < 4) <==>
            forall packed, padded, back | ThereAndBack(c, h, packed, padded, back) ::
              WholeContents(packed, c, h) && WholeContents(back, c, h) && SamePlanes(c, h, packed, back)
  {
    hide ThereAndBack, SamePlanes;
    if c % 32 != 1 || c == 1 || h < 4 {
      forall packed, padded, back | ThereAndBack(c, h, packed, padded, back)
        ensures WholeContents(packed, c, h) && WholeContents(back, c, h) && SamePlanes(c, h, packed, back)
      {
        ComesBack(c, h, packed, padded, back);
      }
    } else {
      var packed, padded, back := LosesColour(c, h);
      assert !SamePlanes(c, h, packed, back);
    }
  }

  lemma ComesBack(c: nat, h: nat, packed: Contents, padded: Contents, back: Contents)
    requires ThereAndBack(c, h, packed, padded, back) && (c % 32 != 1 || c == 1 || h < 4)
    ensures WholeContents(packed, c, h) && WholeContents(back, c, h) && SamePlanes(c, h, packed, back)
  {
    hide Gather, Holds, RowStart, Align16;
    if c % 32 != 1 {
      PlanarRoundTrip(c, h, packed, padded, back);
    } else {
      GatherPacked(packed.p0, c, h);
      GatherPacked(back.p0, c, h);
      GatherPacked(packed.p1, c / 2, h / 2);
      GatherPacked(back.p1, c / 2, h / 2);
      GatherPacked(packed.p2, c / 2, h / 2);
      GatherPacked(back.p2, c / 2, h / 2);
      GatherAnyStride(padded.p1, Align16(Align16(c) / 2), Align16(c / 2), c / 2, h / 2);
      GatherAnyStride(padded.p2, Align16(Align16(c) / 2), Align16(c / 2), c / 2, h / 2);
    }
  }

  function Ones(n: nat): seq<byte> {
    seq(n, _ => 1)
  }

  /** Rows of n ones, padded with zeros to a bytes. */
  function Striped(n: nat, a: nat, rows: nat): seq<byte>
    requires a > 0
  {
    seq(RowStart(a, rows), k => if k % a < n then 1 else 0)
  }

  lemma WideStrides(c: nat)
    requires c % 32 == 1 && c > 1
    ensures var n := c / 32 * 16;
            n >= 16 && c / 2 == n && Align16(c) == 2 * n + 16 && Align16(Align16(c) / 2) == n + 16 && Align16(c / 2) == n
  {
    var q := c / 32;
    assert c == 32 * q + 1;
    Parts(c + 15, 16, 2 * q + 1, 0);
    Parts(16 * q + 8 + 15, 16, q + 1, 7);
    Parts(16 * q + 15, 16, q, 15);
  }

  lemma OnesPicture(s: seq<byte>, stride: nat, n: nat, rows: nat)
    requires n <= stride && s == Ones(RowStart(stride, rows))
    ensures Holds(|s|, stride, n, rows) && Gather(s, stride, n, rows) == Ones(RowStart(n, rows))
  {
    WholeHolds(stride, n, rows);
    forall i: nat, k: nat | i < rows && k < n
      ensures ByteIs(s, stride, i, k, 1)
    {
      HoldsFewer(|s|, stride, n, i, rows);
    }
    GatherOf(s, stride, n, rows, 1);
  }

  lemma StripedPicture(n: nat, a: nat, rows: nat)
    requires n <= a && a > 0
    ensures var s := Striped(n, a, rows);
            && Holds(|s|, a, n, rows) && Gather(s, a, n, rows) == Ones(RowStart(n, rows))
            && RowStart(n, rows) <= |s| && Holds(|s|, n, n, rows) && Gather(s, n, n, rows) == s[..RowStart(n, rows)]
  {
    var s := Striped(n, a, rows);
    WholeHolds(a, n, rows);
    forall i: nat, k: nat | i < rows && k < n
      ensures ByteIs(s, a, i, k, 1)
    {
      HoldsFewer(|s|, a, n, i, rows);
      Parts(RowStart(a, i) + k, a, i, k);
    }
    GatherOf(s, a, n, rows, 1);
    assert RowStart(n, rows) <= RowStart(a, rows) by {
      MulMono(n, a, rows);
    }
    GatherPacked(s, n, rows);
  }

  /** A picture of ones, padded with zeros, and what is read back. */
  function OnesPacked(c: nat, h: nat): Contents {
    var m := RowStart(c / 2, h / 2);
    Contents(Ones(RowStart(c, h)), Ones(m), Ones(m))
  }

  function OnesPadded(c: nat, h: nat): Contents {
    var colour := Striped(c / 2, c / 2 + 16, h / 2);
    Contents(Ones(RowStart(Align16(c), h)), colour, colour)
  }

  function OnesBack(c: nat, h: nat): Contents {
    var (m, colour) := (RowStart(c / 2, h / 2), Striped(c / 2, c / 2 + 16, h / 2));
    Contents(Ones(RowStart(c, h)), if m <= |colour| then colour[..m] else [], if m <= |colour| then colour[..m] else [])
  }

  lemma OnesGoBack(c: nat, h: nat)
    requires c % 32 == 1 && c > 1
    ensures ThereAndBack(c, h, OnesPacked(c, h), OnesPadded(c, h), OnesBack(c, h))
  {
    OnesArePadded(c, h);
    OnesAreRead(c, h);
    hide Ready, SamePicture, RowStart, Striped, Ones;
    StripedLength(c / 2, c / 2 + 16, h / 2);
  }

  lemma StripedLength(n: nat, a: nat, rows: nat)
    requires n <= a && a > 0
    ensures RowStart(n, rows) <= |Striped(n, a, rows)|
    ensures |Ones(RowStart(n, rows))| == RowStart(n, rows)
  {
    StripedPicture(n, a, rows);
  }

  lemma OnesArePadded(c: nat, h: nat)
    requires c % 32 == 1 && c > 1
    ensures var (s, sg, d, dg) := (OnesPacked(c, h), PackedGeometry(c, h), OnesPadded(c, h), PaddedGeometry(c, h));
            Ready(PlanarPacked, s, sg, d, dg) && SamePicture(PlanarPacked, s, sg, d, dg)
  {
    var (n, rows) := (c / 2, h / 2);
    WideStrides(c);
    hide Align16;
    StripedPicture(n, n + 16, rows);
    OnesPicture(OnesPacked(c, h).p0, c, c, h);
    OnesPicture(OnesPadded(c, h).p0, Align16(c), c, h);
    OnesPicture(OnesPacked(c, h).p1, n, n, rows);
    hide RowStart, Holds, Gather, Ones, Striped;
  }

  lemma OnesAreRead(c: nat, h: nat)
    requires c % 32 == 1 && c > 1
    ensures var (s, sg, d, dg) := (OnesPadded(c, h), PaddedGeometry(c, h), OnesBack(c, h), PackedGeometry(c, h));
            Ready(PlanarPadded, s, sg, d, dg) && SamePicture(PlanarPadded, s, sg, d, dg)
  {
    var (n, rows) := (c / 2, h / 2);
    WideStrides(c);
    hide Align16;
    StripedPicture(n, n + 16, rows);
    OnesPicture(OnesBack(c, h).p0, c, c, h);
    OnesPicture(OnesPadded(c, h).p0, Align16(c), c, h);
    GatherPacked(OnesBack(c, h).p1, n, rows);
    hide RowStart, Holds, Gather, Ones, Striped;
  }

  /** The second colour row is read back from the padding. */
  lemma LosesColour(c: nat, h: nat) returns (packed: Contents, padded: Contents, back: Contents)
    requires c % 32 == 1 && c > 1 && h >= 4
    ensures ThereAndBack(c, h, packed, padded, back)
    ensures WholeContents(packed, c, h) && WholeContents(back, c, h) && !SamePlanes(c, h, packed, back)
  {
    packed, padded, back := OnesPacked(c, h), OnesPadded(c, h), OnesBack(c, h);
    OnesGoBack(c, h);
    WideStrides(c);
    SecondRow(c / 2, c / 2 + 16, h / 2);
    hide RowStart, Gather, Ones, Striped, Ready, SamePicture;
    var (m, n) := (RowStart(c / 2, h / 2), c / 2);
    assert back.p1[..m][n] != packed.p1[..m][n];
  }

  lemma SecondRow(n: nat, a: nat, rows: nat)
    requires 16 <= n < a && rows >= 2
    ensures n < RowStart(n, rows) <= |Striped(n, a, rows)|
    ensures Striped(n, a, rows)[n] == 0 && Ones(RowStart(n, rows))[n] == 1
  {
    MulMono(2, rows, n);
    MulMono(n, a, rows);
    assert rows * n == n * rows && rows * a == a * rows;
  }
}
