/** The software conversions of libcsc/csc.c between RGB and the 4:2:0 formats, on packed buffers outside MFC memory. Each
    format is a way to lay out one image; a conversion keeps the image, so the route taken does not matter. */
module CscPaths {
  import opened Bytes
  import opened StridedRows
  import opened MfcCopy
  import opened RgbToYuv

  /** Groups of formats with one layout: I420 for 420_P, NV12 for 420_SP, NV12Priv for 420_SP_M_PRIV, NV21 for YCrCb SP. */
  datatype Format = I420 | YV12 | NV12 | NV12Priv | NV21

  datatype Image = Image(y: seq<byte>, cb: seq<byte>, cr: seq<byte>)

  function Swapped(img: Image): Image {
    Image(img.y, img.cr, img.cb)
  }

  // ----- Layouts ----------------------------------------------------------

  predicate IsPlanar(f: Format) {
    f.I420? || f.YV12?
  }

  /** The buffers hold n luma samples and the colour samples that go with them. */
  predicate Fits(f: Format, p: Contents, n: nat) {
    && n % 4 == 0 && n <= |p.p0|
    && (if IsPlanar(f) then n / 4 <= |p.p1| && n / 4 <= |p.p2| else n / 2 <= |p.p1|)
  }

  /** The image that buffers of a format show. */
  function ImageOf(f: Format, p: Contents, n: nat): Image
    requires Fits(f, p, n)
  {
    match f
    case I420 => Image(p.p0[..n], p.p1[..n / 4], p.p2[..n / 4])
    case YV12 => Image(p.p0[..n], p.p2[..n / 4], p.p1[..n / 4])
    case NV12 => Image(p.p0[..n], Evens(p.p1[..n / 2]), Odds(p.p1[..n / 2]))
    case NV12Priv => Image(p.p0[..n], Evens(p.p1[..n / 2]), Odds(p.p1[..n / 2]))
    case NV21 => Image(p.p0[..n], Odds(p.p1[..n / 2]), Evens(p.p1[..n / 2]))
  }

  /** Where the samples of an image lie: Cb and Cr in planes of their own, exchanged in YV12, or in turn in one plane, Cr
      first in NV21. */
  lemma ImageBytes(f: Format, p: Contents, n: nat, k: nat)
    requires Fits(f, p, n)
    ensures var img := ImageOf(f, p, n);
            && |img.y| == n && |img.cb| == |img.cr| == n / 4 && (k < n ==> img.y[k] == p.p0[k])
            && (k < n / 4 ==>
                  match f
                  case I420 => img.cb[k] == p.p1[k] && img.cr[k] == p.p2[k]
                  case YV12 => img.cb[k] == p.p2[k] && img.cr[k] == p.p1[k]
                  case NV21 => img.cb[k] == p.p1[2 * k + 1] && img.cr[k] == p.p1[2 * k]
                  case _ => img.cb[k] == p.p1[2 * k] && img.cr[k] == p.p1[2 * k + 1])
  {}

  /** The bytes a format uses are the same. */
  predicate SameBytes(f: Format, p: Contents, q: Contents, n: nat)
    requires Fits(f, p, n) && Fits(f, q, n)
  {
    && p.p0[..n] == q.p0[..n]
    && (if IsPlanar(f) then p.p1[..n / 4] == q.p1[..n / 4] && p.p2[..n / 4] == q.p2[..n / 4]
        else p.p1[..n / 2] == q.p1[..n / 2])
  }

  /** An image has one layout in every format. */
  lemma ImageFixesBytes(f: Format, p: Contents, q: Contents, n: nat)
    requires Fits(f, p, n) && Fits(f, q, n) && ImageOf(f, p, n) == ImageOf(f, q, n)
    ensures SameBytes(f, p, q, n)
  {
    hide Evens, Odds, Interleave;
    if !IsPlanar(f) {
      DeinterleaveRoundTrip(p.p1[..n / 2]);
      DeinterleaveRoundTrip(q.p1[..n / 2]);
    }
  }

  // ----- RGB --------------------------------------------------------------

  /** The image an RGB picture stands for. */
  function RgbImage(order: Order, src: seq<byte>, w: nat, h: nat): Image
    requires 4 * (h * w) <= |src|
  {
    Image(Plane(Y, order, src, w, h), Plane(Cb, order, src, w, h), Plane(Cr, order, src, w, h))
  }

  /** Sizes of an even picture. */
  lemma EvenSizes(w: nat, h: nat)
    requires w % 2 == 0 && h % 2 == 0
    ensures Samples(Y, h) * Samples(Y, w) == h * w
    ensures Samples(Cb, h) * Samples(Cb, w) == Samples(Cr, h) * Samples(Cr, w) == h * w / 4 && h * w % 4 == 0
  {
    var (a, b) := (h / 2, w / 2);
    assert h * w == 4 * (a * b) by {
      assert h == 2 * a && w == 2 * b;
    }
    assert Samples(Cb, h) == a && Samples(Cb, w) == b;
  }

  /** conv_sw_src_argb888 and conv_sw_src_rgba888. */
  method ConvSwSrcRgb(order: Order, f: Format, src: array<byte>, w: nat, h: nat, dst: Planes) returns (ret: Result)
    requires w % 2 == 0 && h % 2 == 0 && 4 * (h * w) <= src.Length
    requires Distinct(dst) && src != dst.p0 && src != dst.p1 && src != dst.p2
    requires Fits(f, Read(dst), h * w)
    modifies dst.p0, dst.p1, dst.p2
    ensures ret == if f.NV21? then ErrorUnsupportFormat else ErrorNone
    ensures ret.ErrorNone? ==> ImageOf(f, Read(dst), h * w) == RgbImage(order, src[..], w, h)
  {
    hide Plane, Samples, Evens, Odds, Interleave, UvPlane;
    EvenSizes(w, h);
    ret := ErrorNone;
    match f
    case I420 => ToPlanar(order, dst.p0, dst.p1, dst.p2, src, w, h);
    case NV12 => RgbToSemiPlanar(order, src, w, h, dst);
    case NV12Priv => RgbToSemiPlanar(order, src, w, h, dst);
    case YV12 => ToPlanar(order, dst.p0, dst.p2, dst.p1, src, w, h);
    case NV21 => ret := ErrorUnsupportFormat;
  }

  method RgbToSemiPlanar(order: Order, src: array<byte>, w: nat, h: nat, dst: Planes)
    requires w % 2 == 0 && h % 2 == 0 && 4 * (h * w) <= src.Length
    requires Distinct(dst) && src != dst.p0 && src != dst.p1 && src != dst.p2
    requires Fits(NV12, Read(dst), h * w)
    modifies dst.p0, dst.p1
    ensures ImageOf(NV12, Read(dst), h * w) == RgbImage(order, src[..], w, h)
  {
    hide Plane, Samples, Evens, Odds;
    EvenSizes(w, h);
    ToSemiPlanar(order, dst.p0, dst.p1, src, w, h);
    ghost var (cb, cr) := (Plane(Cb, order, src[..], w, h), Plane(Cr, order, src[..], w, h));
    assert |UvPlane(order, src[..], w, h)| == h * w / 2;
    hide Interleave;
    InterleaveRoundTrip(cb, cr);
  }

  // ----- Between YUV formats ----------------------------------------------

  /** The conversions conv_sw offers between YUV formats. */
  predicate Supported(f: Format, g: Format) {
    match f
    case I420 => g in {I420, NV12, NV12Priv}
    case YV12 => g in {YV12, NV12, NV12Priv}
    case NV12 => g in {NV12, NV12Priv, I420, YV12}
    case NV12Priv => g in {NV12, NV12Priv, I420, YV12}
    case NV21 => g in {NV21, NV12Priv, I420, YV12}
  }

  /** Every format goes to itself and to the private NV12 format, all but NV21 to NV12, and the semi-planar ones to both
      planar ones. */
  lemma SupportedPairs(f: Format, g: Format)
    ensures Supported(f, g) <==>
            f == g || g == NV12Priv || (g == NV12 && f != NV21) || (f in {NV12, NV12Priv, NV21} && g in {I420, YV12})
  {}

  /** From NV21 to the private NV12 format the colour plane is copied as it is. */
  predicate Swaps(f: Format, g: Format) {
    f.NV21? && g.NV12Priv?
  }

  method CopyBlock(dst: array<byte>, src: array<byte>, n: nat)
    requires dst != src && n <= dst.Length && n <= src.Length
    modifies dst
    ensures dst[..n] == src[..n]
  {
    CopyRgb(dst, src, n);
  }

  method InterleaveBlock(dst: array<byte>, u: array<byte>, v: array<byte>, n: nat)
    requires dst != u && dst != v && 2 * n <= dst.Length && n <= u.Length && n <= v.Length
    modifies dst
    ensures dst[..2 * n] == Interleave(u[..n], v[..n])
  {
    hide Interleave;
    InterleaveMemcpy(dst, 0, u, v, 0, n);
    assert u[0..0 + n] == u[..n] && v[0..0 + n] == v[..n];
    assert dst[..0 + 2 * n] == Interleave(u[..n], v[..n]);
  }

  /** conv_sw_src_yuv420p and conv_sw_src_yvu420p: the plane holding Cb is the second or the third. */
  method ConvSwSrcPlanar(f: Format, g: Format, src: Planes, n: nat, dst: Planes) returns (ret: Result)
    requires IsPlanar(f) && Distinct(dst) && Apart(dst, src) && Fits(f, Read(src), n) && Fits(g, Read(dst), n)
    modifies dst.p0, dst.p1, dst.p2
    ensures ret == if Supported(f, g) then ErrorNone else ErrorUnsupportFormat
    ensures Supported(f, g) ==> ImageOf(g, Read(dst), n) == ImageOf(f, Read(src), n)
  {
    hide Evens, Odds, Interleave;
    ret := ErrorNone;
    if g == f {
      CopyBlock(dst.p0, src.p0, n);
      CopyBlock(dst.p1, src.p1, n / 4);
      CopyBlock(dst.p2, src.p2, n / 4);
    } else if g.NV12? || g.NV12Priv? {
      CopyBlock(dst.p0, src.p0, n);
      if f.I420? {
        InterleaveBlock(dst.p1, src.p1, src.p2, n / 4);
        InterleaveRoundTrip(src.p1[..n / 4], src.p2[..n / 4]);
      } else {
        InterleaveBlock(dst.p1, src.p2, src.p1, n / 4);
        InterleaveRoundTrip(src.p2[..n / 4], src.p1[..n / 4]);
      }
    } else {
      ret := ErrorUnsupportFormat;
    }
  }

  /** The nested loop that takes an interleaved plane apart, row by row at the source's stride. */
  method DeinterleaveRows(dst1: array<byte>, dst2: array<byte>, src: array<byte>, stride: nat, half: nat, rows: nat)
    requires dst1 != src && dst2 != src && dst1 != dst2
    requires Holds(src.Length, stride, 2 * half, rows)
    requires RowStart(half, rows) <= dst1.Length && RowStart(half, rows) <= dst2.Length
    modifies dst1, dst2
    ensures dst1[..RowStart(half, rows)] == Evens(Gather(src[..], stride, 2 * half, rows))
    ensures dst2[..RowStart(half, rows)] == Odds(Gather(src[..], stride, 2 * half, rows))
  {
    hide Evens, Odds, RowStart, Holds, Gather;
    NoPairsYet(src[..], stride, half);
    for i := 0 to rows
      invariant RowStart(half, i) <= dst1.Length && RowStart(half, i) <= dst2.Length
      invariant Holds(src.Length, stride, 2 * half, i) && src[..] == old(src[..])
      invariant dst1[..RowStart(half, i)] == Evens(Gather(src[..], stride, 2 * half, i))
      invariant dst2[..RowStart(half, i)] == Odds(Gather(src[..], stride, 2 * half, i))
    {
      HoldsFewer(src.Length, stride, 2 * half, i, rows);
      HoldsFewer(src.Length, stride, 2 * half, i + 1, rows);
      RowsOrdered(half, i + 1, rows);
      NextRow(half, i);
      MorePairs(src[..], stride, half, i);
      var s, d := RowStart(stride, i), RowStart(half, i);
      DeinterleaveMemcpy(dst1, dst2, d, src, s, 2 * half);
    }
  }

  lemma NoPairsYet(s: seq<byte>, stride: nat, half: nat)
    ensures RowStart(half, 0) == 0 && Holds(|s|, stride, 2 * half, 0)
    ensures Evens(Gather(s, stride, 2 * half, 0)) == Odds(Gather(s, stride, 2 * half, 0)) == []
  {}

  lemma MorePairs(s: seq<byte>, stride: nat, half: nat, i: nat)
    requires Holds(|s|, stride, 2 * half, i) && Holds(|s|, stride, 2 * half, i + 1)
    requires RowStart(stride, i) + 2 * half <= |s|
    ensures var row := s[RowStart(stride, i)..RowStart(stride, i) + 2 * half];
            && Evens(Gather(s, stride, 2 * half, i + 1)) == Evens(Gather(s, stride, 2 * half, i)) + Evens(row)
            && Odds(Gather(s, stride, 2 * half, i + 1)) == Odds(Gather(s, stride, 2 * half, i)) + Odds(row)
  {
    hide Evens, Odds, RowStart, Holds;
    var row := s[RowStart(stride, i)..RowStart(stride, i) + 2 * half];
    GatherLength(s, stride, 2 * half, i);
    EvenLength(half, i);
    DeinterleaveAppend(Gather(s, stride, 2 * half, i), row);
  }

  lemma EvenLength(half: nat, i: nat)
    ensures RowStart(2 * half, i) % 2 == 0
  {
    assert i * (2 * half) == 2 * (i * half);
  }

  /** The split of conv_sw_src_yuv420sp and conv_sw_src_yvu420sp for a cropped picture: the first of each pair goes to
      one plane, the second to the other. */
  method SplitSemiPlanar(src: Planes, g: Geometry, y: array<byte>, first: array<byte>, second: array<byte>)
    requires y != first && y != second && first != second
    requires y != src.p0 && y != src.p1 && first != src.p1 && second != src.p1
    requires first != src.p0 && second != src.p0
    requires Holds(src.p0.Length, g.width, g.cropWidth, g.cropHeight)
    requires Holds(src.p1.Length, g.width, 2 * (g.cropWidth / 2), g.cropHeight / 2)
    requires Holds(y.Length, g.cropWidth, g.cropWidth, g.cropHeight)
    requires RowStart(g.cropWidth / 2, g.cropHeight / 2) <= first.Length
    requires RowStart(g.cropWidth / 2, g.cropHeight / 2) <= second.Length
    modifies y, first, second
    ensures Gather(y[..], g.cropWidth, g.cropWidth, g.cropHeight) ==
            Gather(src.p0[..], g.width, g.cropWidth, g.cropHeight)
    ensures var pairs := Gather(src.p1[..], g.width, 2 * (g.cropWidth / 2), g.cropHeight / 2);
            var n := RowStart(g.cropWidth / 2, g.cropHeight / 2);
            first[..n] == Evens(pairs) && second[..n] == Odds(pairs)
  {
    hide Evens, Odds, RowStart, Holds, Gather;
    CopyRows(y, g.cropWidth, src.p0, g.width, g.cropWidth, g.cropHeight);
    DeinterleaveRows(first, second, src.p1, g.width, g.cropWidth / 2, g.cropHeight / 2);
  }

  lemma PackedSizes(w: nat, h: nat)
    requires w % 2 == 0 && h % 2 == 0
    ensures RowStart(w, h) == h * w && RowStart(w / 2, h / 2) == h * w / 4 && RowStart(w, h / 2) == h * w / 2
    ensures h * w % 4 == 0 && 2 * (w / 2) == w
  {
    EvenSizes(w, h);
    var (a, b) := (h / 2, w / 2);
    assert RowStart(w, h / 2) == a * (2 * b) == 2 * (a * b);
    assert RowStart(w / 2, h / 2) == a * b == Samples(Cb, h) * Samples(Cb, w);
  }

  /** conv_sw_src_yuv420sp and conv_sw_src_yvu420sp for an uncropped picture. */
  method ConvSwSrcSemiPlanar(f: Format, g: Format, src: Planes, w: nat, h: nat, dst: Planes) returns (ret: Result)
    requires !IsPlanar(f) && w % 2 == 0 && h % 2 == 0
    requires Distinct(dst) && Apart(dst, src) && Fits(f, Read(src), h * w) && Fits(g, Read(dst), h * w)
    modifies dst.p0, dst.p1, dst.p2
    ensures ret == if Supported(f, g) then ErrorNone else ErrorUnsupportFormat
    ensures Supported(f, g) ==>
              ImageOf(g, Read(dst), h * w) ==
              if f == NV21 && g == NV12Priv then Swapped(ImageOf(f, Read(src), h * w)) else ImageOf(f, Read(src), h * w)
  {
    hide Evens, Odds, Interleave, RowStart, Holds, Gather;
    PackedSizes(w, h);
    ret := ErrorNone;
    if (if f.NV21? then g.NV21? || g.NV12Priv? else g.NV12? || g.NV12Priv?) {
      CopyBlock(dst.p0, src.p0, h * w);
      CopyBlock(dst.p1, src.p1, h * w / 2);
    } else if IsPlanar(g) {
      PackedHolds(Read(src), Read(dst), w, h);
      if f.NV21? == g.I420? {
        SplitSemiPlanar(src, PackedGeometry(w, h), dst.p0, dst.p2, dst.p1);
      } else {
        SplitSemiPlanar(src, PackedGeometry(w, h), dst.p0, dst.p1, dst.p2);
      }
      GatherPacked(dst.p0[..], w, h);
      GatherPacked(src.p0[..], w, h);
      GatherPacked(src.p1[..], w, h / 2);
    } else {
      ret := ErrorUnsupportFormat;
    }
  }

  lemma PackedHolds(s: Contents, d: Contents, w: nat, h: nat)
    requires w % 2 == 0 && h % 2 == 0 && h * w <= |s.p0| && h * w / 2 <= |s.p1| && h * w <= |d.p0|
    ensures Holds(|s.p0|, w, w, h) && Holds(|s.p1|, w, w, h / 2) && Holds(|d.p0|, w, w, h)
  {
    PackedSizes(w, h);
    hide RowStart;
    GatherPacked(s.p0, w, h);
    GatherPacked(s.p1, w, h / 2);
    GatherPacked(d.p0, w, h);
  }

  // ----- Routes -----------------------------------------------------------

  /** Buffers of some format somewhere along a route. */
  datatype Stop = Stop(format: Format, contents: Contents)

  predicate StopFits(s: Stop, n: nat) {
    Fits(s.format, s.contents, n)
  }

  /** One supported conversion, as the methods above leave its result. */
  predicate Converted(s: Stop, t: Stop, n: nat)
    requires StopFits(s, n) && StopFits(t, n)
  {
    && Supported(s.format, t.format)
    && ImageOf(t.format, t.contents, n) ==
       if Swaps(s.format, t.format) then Swapped(ImageOf(s.format, s.contents, n)) else ImageOf(s.format, s.contents, n)
  }

  predicate Route(route: seq<Stop>, n: nat) {
    && |route| > 0
    && (forall i :: 0 <= i < |route| ==> StopFits(route[i], n))
    && (forall i {:trigger route[i]} | 1 <= i < |route| :: Converted(route[i - 1], route[i], n))
  }

  predicate Straight(route: seq<Stop>) {
    forall i {:trigger route[i]} | 1 <= i < |route| :: !Swaps(route[i - 1].format, route[i].format)
  }

  function Last(route: seq<Stop>): Stop
    requires |route| > 0
  {
    route[|route| - 1]
  }

  /** A route keeps the image. */
  lemma {:induction false} RouteKeepsImage(route: seq<Stop>, n: nat)
    requires Route(route, n)
    requires forall i {:trigger route[i]} | 1 <= i < |route| :: !(route[i - 1].format == NV21 && route[i].format == NV12Priv)
    ensures ImageOf(Last(route).format, Last(route).contents, n) ==
            ImageOf(route[0].format, route[0].contents, n)
  {
    hide ImageOf, Supported;
    if |route| > 1 {
      var before := route[..|route| - 1];
      assert forall i :: 0 <= i < |before| ==> before[i] == route[i];
      RouteKeepsImage(before, n);
    }
  }

  /** Two routes from the same image that end in the same format end with the same bytes. In particular an RGB picture
      reaches a semi-planar buffer with the same bytes directly, by way of I420, and by way of YV12. */
  lemma RoutesAgree(a: seq<Stop>, b: seq<Stop>, n: nat)
    requires Route(a, n) && Straight(a) && Route(b, n) && Straight(b)
    requires ImageOf(a[0].format, a[0].contents, n) == ImageOf(b[0].format, b[0].contents, n)
    requires Last(a).format == Last(b).format
    ensures var (p, q, f) := (Last(a).contents, Last(b).contents, Last(a).format);
            && p.p0[..n] == q.p0[..n]
            && (f.I420? || f.YV12? ==> p.p1[..n / 4] == q.p1[..n / 4] && p.p2[..n / 4] == q.p2[..n / 4])
            && (f.NV12? || f.NV12Priv? || f.NV21? ==> p.p1[..n / 2] == q.p1[..n / 2])
  {
    hide ImageOf;
    RouteKeepsImage(a, n);
    RouteKeepsImage(b, n);
    ImageFixesBytes(Last(a).format, Last(a).contents, Last(b).contents, n);
  }

  /** Straightness is needed: the step from NV21 to the private NV12 format keeps exactly the images whose two colour
      planes are the same. */
  lemma SwapNeedsEqualPlanes(s: Stop, t: Stop, n: nat)
    requires StopFits(s, n) && StopFits(t, n) && Converted(s, t, n) && Swaps(s.format, t.format)
    ensures var (i, j) := (ImageOf(s.format, s.contents, n), ImageOf(t.format, t.contents, n));
            i == j <==> i.cb == i.cr
  {}

  /** A picture of four pixels for which it fails. */
  lemma SwapExample(s: Stop, t: Stop)
    requires s == Stop(NV21, Contents([0, 0, 0, 0], [1, 2], []))
    requires StopFits(t, 4) && t.format == NV12Priv && Converted(s, t, 4)
    ensures ImageOf(t.format, t.contents, 4) != ImageOf(s.format, s.contents, 4)
  {
    var pair := s.contents.p1[..4 / 2];
    assert Evens(pair)[0] == 1 && Odds(pair)[0] == 2;
  }
}
