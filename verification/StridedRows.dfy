/** Pictures whose rows lie a stride apart, and the row-by-row copies of libcsc/csc.c. */
module StridedRows {
  import opened Bytes

  /** Where a row starts. */
  function RowStart(stride: nat, i: nat): nat {
    i * stride
  }

  lemma NextRow(stride: nat, i: nat)
    ensures RowStart(stride, i + 1) == RowStart(stride, i) + stride
  {
    assert (i + 1) * stride == i * stride + stride;
  }

  lemma RowsOrdered(stride: nat, i: nat, j: nat)
    requires i <= j
    ensures RowStart(stride, i) <= RowStart(stride, j)
  {
    MulMono(i, j, stride);
  }

  /** A buffer of some length holds so many rows of n bytes. */
  predicate Holds(length: nat, stride: nat, n: nat, rows: nat) {
    rows > 0 ==> RowStart(stride, rows - 1) + n <= length
  }

  lemma HoldsFewer(length: nat, stride: nat, n: nat, i: nat, rows: nat)
    requires Holds(length, stride, n, rows) && i <= rows
    ensures Holds(length, stride, n, i)
    ensures i < rows ==> RowStart(stride, i) + n <= length
  {
    hide RowStart;
    if 0 < i {
      RowsOrdered(stride, i - 1, rows - 1);
    }
    if i < rows {
      RowsOrdered(stride, i, rows - 1);
    }
  }

  /** The first n bytes of every row, one after the other. */
  function Gather(s: seq<byte>, stride: nat, n: nat, rows: nat): seq<byte>
    requires Holds(|s|, stride, n, rows)
  {
    if rows == 0 then []
    else
      HoldsFewer(|s|, stride, n, rows - 1, rows);
      Gather(s, stride, n, rows - 1) + s[RowStart(stride, rows - 1)..RowStart(stride, rows - 1) + n]
  }

  lemma {:induction false} GatherLength(s: seq<byte>, stride: nat, n: nat, rows: nat)
    requires Holds(|s|, stride, n, rows)
    ensures |Gather(s, stride, n, rows)| == RowStart(n, rows)
  {
    hide RowStart, Holds;
    if rows == 0 {
      ZeroRows(n);
    } else {
      HoldsFewer(|s|, stride, n, rows - 1, rows);
      GatherLength(s, stride, n, rows - 1);
      NextRow(n, rows - 1);
    }
  }

  lemma ZeroRows(n: nat)
    ensures RowStart(n, 0) == 0
  {}

  /** Byte k of row i. */
  lemma {:induction false} GatherAt(s: seq<byte>, stride: nat, n: nat, rows: nat, i: nat, k: nat)
    requires Holds(|s|, stride, n, rows) && i < rows && k < n
    ensures RowStart(stride, i) + k < |s| && RowStart(n, i) + k < |Gather(s, stride, n, rows)|
    ensures Gather(s, stride, n, rows)[RowStart(n, i) + k] == s[RowStart(stride, i) + k]
  {
    hide RowStart, Holds;
    HoldsFewer(|s|, stride, n, rows - 1, rows);
    HoldsFewer(|s|, stride, n, i, rows);
    GatherLength(s, stride, n, rows - 1);
    GatherLength(s, stride, n, rows);
    if i < rows - 1 {
      GatherAt(s, stride, n, rows - 1, i, k);
    } else {
      NextRow(n, i);
    }
  }

  /** Two buffers with the same rows: byte k of row i is the same. */
  lemma SameRows(s: seq<byte>, sStride: nat, d: seq<byte>, dStride: nat, n: nat, rows: nat, i: nat, k: nat)
    requires Holds(|s|, sStride, n, rows) && Holds(|d|, dStride, n, rows) && i < rows && k < n
    requires Gather(d, dStride, n, rows) == Gather(s, sStride, n, rows)
    ensures 0 <= i * sStride + k < |s| && 0 <= i * dStride + k < |d| && d[i * dStride + k] == s[i * sStride + k]
  {
    hide Gather, Holds;
    GatherAt(s, sStride, n, rows, i, k);
    GatherAt(d, dStride, n, rows, i, k);
  }

  /** What lies between the rows and behind the last one is in no row. */
  lemma GapBytes(stride: nat, n: nat, rows: nat, i: nat, k: nat)
    requires n <= stride && k < stride && (n <= k || i >= rows)
    ensures !InRows(i * stride + k, stride, n, rows)
  {
    if InRows(i * stride + k, stride, n, rows) {
      var j: nat :| j < rows && RowStart(stride, j) <= i * stride + k < RowStart(stride, j) + n;
      if j < i {
        MulMono(j + 1, i, stride);
        NextRow(stride, j);
      } else if j > i {
        MulMono(i + 1, j, stride);
        NextRow(stride, i);
      }
    }
  }

  /** Rows without gaps are the buffer itself. */
  lemma {:induction false} GatherPacked(s: seq<byte>, n: nat, rows: nat)
    requires RowStart(n, rows) <= |s|
    ensures Holds(|s|, n, n, rows) && Gather(s, n, n, rows) == s[..RowStart(n, rows)]
  {
    hide RowStart;
    if rows > 0 {
      NextRow(n, rows - 1);
      GatherPacked(s, n, rows - 1);
    } else {
      ZeroRows(n);
    }
  }

  lemma HoldsLonger(m: nat, length: nat, stride: nat, n: nat, rows: nat)
    requires m <= length && Holds(m, stride, n, rows)
    ensures Holds(length, stride, n, rows)
    ensures rows > 0 ==> Holds(m, stride, n, rows - 1) && RowStart(stride, rows - 1) + n <= m
  {
    if rows > 0 {
      HoldsFewer(m, stride, n, rows - 1, rows);
    }
  }

  /** Only the bytes of the rows matter. */
  lemma {:induction false} GatherFrame(s: seq<byte>, t: seq<byte>, m: nat, stride: nat, n: nat, rows: nat)
    requires m <= |s| && m <= |t| && s[..m] == t[..m] && Holds(m, stride, n, rows)
    ensures Holds(|s|, stride, n, rows) && Holds(|t|, stride, n, rows)
    ensures Gather(s, stride, n, rows) == Gather(t, stride, n, rows)
  {
    hide RowStart, Holds;
    HoldsLonger(m, |s|, stride, n, rows);
    HoldsLonger(m, |t|, stride, n, rows);
    if rows > 0 {
      HoldsFewer(m, stride, n, rows - 1, rows);
      GatherFrame(s, t, m, stride, n, rows - 1);
      var a := RowStart(stride, rows - 1);
      assert s[a..a + n] == s[..m][a..a + n];
      assert t[a..a + n] == t[..m][a..a + n];
    }
  }

  ghost predicate InRows(k: nat, stride: nat, n: nat, rows: nat) {
    exists i :: 0 <= i < rows && RowStart(stride, i) <= k < RowStart(stride, i) + n
  }

  /** for (i = 0; i < rows; i++) memcpy(dst + dstStride * i, src + srcStride * i, n). */
  method CopyRows(dst: array<byte>, dstStride: nat, src: array<byte>, srcStride: nat, n: nat, rows: nat)
    requires dst != src && n <= dstStride
    requires Holds(dst.Length, dstStride, n, rows) && Holds(src.Length, srcStride, n, rows)
    modifies dst
    ensures Gather(dst[..], dstStride, n, rows) == Gather(src[..], srcStride, n, rows)
    ensures forall k {:trigger dst[k]} | 0 <= k < dst.Length && !InRows(k, dstStride, n, rows) :: dst[k] == old(dst[k])
  {
    hide RowStart, Holds, Gather, InRows;
    NoRows(dst[..], dstStride, src[..], srcStride, n);
    for i := 0 to rows
      invariant src[..] == old(src[..])
      invariant Holds(dst.Length, dstStride, n, i) && Holds(src.Length, srcStride, n, i)
      invariant Gather(dst[..], dstStride, n, i) == Gather(src[..], srcStride, n, i)
      invariant forall k {:trigger dst[k]} | 0 <= k < dst.Length && !InRows(k, dstStride, n, i) :: dst[k] == old(dst[k])
    {
      HoldsFewer(dst.Length, dstStride, n, i, rows);
      HoldsFewer(src.Length, srcStride, n, i, rows);
      HoldsFewer(dst.Length, dstStride, n, i + 1, rows);
      HoldsFewer(src.Length, srcStride, n, i + 1, rows);
      var d, s := RowStart(dstStride, i), RowStart(srcStride, i);
      ghost var was := dst[..];
      Memcpy(dst, d, src, s, n);
      OneMoreRow(was, dst[..], dstStride, src[..], srcStride, n, i);
      Spliced(dst[..], was, d, src[s..s + n]);
      forall k {:trigger dst[k]} | 0 <= k < dst.Length && !InRows(k, dstStride, n, i + 1)
        ensures dst[k] == old(dst[k])
      {
        NotInRows(k, dstStride, n, i);
        assert dst[..][k] == was[k];
      }
    }
  }

  lemma NoRows(d: seq<byte>, dstStride: nat, s: seq<byte>, srcStride: nat, n: nat)
    ensures Holds(|d|, dstStride, n, 0) && Holds(|s|, srcStride, n, 0)
    ensures Gather(d, dstStride, n, 0) == Gather(s, srcStride, n, 0) == []
  {}

  lemma NotInRows(k: nat, stride: nat, n: nat, i: nat)
    requires !InRows(k, stride, n, i + 1)
    ensures !InRows(k, stride, n, i) && !(RowStart(stride, i) <= k < RowStart(stride, i) + n)
  {
    hide RowStart;
  }

  lemma OneMoreRow(was: seq<byte>, d: seq<byte>, dstStride: nat, s: seq<byte>, srcStride: nat, n: nat, i: nat)
    requires n <= dstStride && |was| == |d|
    requires RowStart(dstStride, i) + n <= |d| && RowStart(srcStride, i) + n <= |s|
    requires Holds(|d|, dstStride, n, i) && Holds(|s|, srcStride, n, i)
    requires Holds(|d|, dstStride, n, i + 1) && Holds(|s|, srcStride, n, i + 1)
    requires Gather(was, dstStride, n, i) == Gather(s, srcStride, n, i)
    requires d[..RowStart(dstStride, i) + n] ==
             was[..RowStart(dstStride, i)] + s[RowStart(srcStride, i)..RowStart(srcStride, i) + n]
    ensures Gather(d, dstStride, n, i + 1) == Gather(s, srcStride, n, i + 1)
  {
    hide RowStart;
    var a := RowStart(dstStride, i);
    assert d[..a] == d[..a + n][..a] == was[..a];
    if i > 0 {
      NextRow(dstStride, i - 1);
    }
    GatherFrame(was, d, a, dstStride, n, i);
    assert d[a..a + n] == d[..a + n][a..];
  }

  /** Byte k of row i has the value b. */
  predicate ByteIs(s: seq<byte>, stride: nat, i: nat, k: nat, b: byte) {
    RowStart(stride, i) + k < |s| && s[RowStart(stride, i) + k] == b
  }

  /** Rows that hold one value throughout. */
  lemma {:induction false} GatherOf(s: seq<byte>, stride: nat, n: nat, rows: nat, b: byte)
    requires Holds(|s|, stride, n, rows)
    requires forall i: nat, k: nat | i < rows && k < n :: ByteIs(s, stride, i, k, b)
    ensures Gather(s, stride, n, rows) == seq(RowStart(n, rows), _ => b)
  {
    hide RowStart;
    if rows == 0 {
      ZeroRows(n);
    } else {
      HoldsFewer(|s|, stride, n, rows - 1, rows);
      GatherOf(s, stride, n, rows - 1, b);
      NextRow(n, rows - 1);
      var last := s[RowStart(stride, rows - 1)..RowStart(stride, rows - 1) + n];
      forall k: nat | k < n
        ensures last[k] == b
      {
        assert ByteIs(s, stride, rows - 1, k, b);
      }
    }
  }

  /** One row, or rows of no bytes, are the same at any stride. */
  lemma {:induction false} GatherAnyStride(s: seq<byte>, stride: nat, other: nat, n: nat, rows: nat)
    requires Holds(|s|, stride, n, rows) && Holds(|s|, other, n, rows) && (rows <= 1 || n == 0)
    ensures Gather(s, stride, n, rows) == Gather(s, other, n, rows)
  {
    if rows > 0 {
      HoldsFewer(|s|, stride, n, rows - 1, rows);
      HoldsFewer(|s|, other, n, rows - 1, rows);
      GatherAnyStride(s, stride, other, n, rows - 1);
    }
  }
}
