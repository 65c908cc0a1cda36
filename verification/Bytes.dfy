/** Bytes, byte buffers, and the three copy loops that every converter of
    libswconverter/swconvertor.c is built from. */
module Bytes {
  newtype byte = x: int | 0 <= x < 256

  // ----- Bitwise or -------------------------------------------------------

  /** `a | b` on unsigned values of any width. */
  function BitOr(a: nat, b: nat): nat {
    if a == 0 then b
    else if b == 0 then a
    else 2 * BitOr(a / 2, b / 2) + (if a % 2 == 1 || b % 2 == 1 then 1 else 0)
  }

  predicate IsPowerOfTwo(p: nat)
    decreases p
  {
    p == 1 || (p > 1 && p % 2 == 0 && IsPowerOfTwo(p / 2))
  }

  /** Or-ing a field below bit k into a value whose low k bits are clear adds it (p is 2 to the k). */
  lemma {:induction false} OrOfDisjointFields(high: nat, low: nat, p: nat)
    requires IsPowerOfTwo(p) && low < p
    ensures BitOr(high * p, low) == high * p + low
    decreases p
  {
    if p > 1 && high * p != 0 && low != 0 {
      var q := p / 2;
      HalfOfProduct(high, p);
      OrOfDisjointFields(high, low / 2, q);
    }
  }

  lemma HalfOfProduct(high: nat, p: nat)
    requires p % 2 == 0
    ensures high * p / 2 == high * (p / 2) && high * p % 2 == 0
  {
    var q := p / 2;
    assert high * p == 2 * (high * q) by { assert p == 2 * q; }
  }

  lemma MulMono(a: nat, b: nat, n: nat)
    ensures a <= b ==> a * n <= b * n
  {}

  /** Quotient and remainder by a variable, kept apart from the solver's own division. */
  function Div(a: nat, n: nat): nat
    requires n > 0
  {
    if a < n then 0 else 1 + Div(a - n, n)
  }

  function Mod(a: nat, n: nat): nat
    requires n > 0
  {
    if a < n then a else Mod(a - n, n)
  }

  lemma {:induction false} DivMod(a: nat, n: nat)
    requires n > 0
    ensures a == Div(a, n) * n + Mod(a, n) && Mod(a, n) < n
  {
    if a >= n {
      DivMod(a - n, n);
    }
  }

  lemma DivModUnique(a: nat, n: nat, q: nat, r: nat)
    requires r < n && a == q * n + r
    ensures Div(a, n) == q && Mod(a, n) == r
  {
    DivMod(a, n);
    MulMono(q + 1, Div(a, n), n);
    MulMono(Div(a, n) + 1, q, n);
  }

  lemma DivIsDivision(a: nat, n: nat)
    requires n > 0
    ensures Div(a, n) == a / n && Mod(a, n) == a % n
  {
    DivMod(a, n);
    Parts(a, n, Div(a, n), Mod(a, n));
  }

  lemma DivIsNat(a: nat, n: nat)
    requires n > 0
    ensures a / n >= 0
  {}

  /** The same for the built-in division. */
  lemma Parts(a: nat, n: nat, q: nat, r: nat)
    requires r < n && a == n * q + r
    ensures a / n == q && a % n == r
  {
    DivIsNat(a, n);
    MulMono(q + 1, a / n, n);
    MulMono(a / n + 1, q, n);
  }

  // ----- Interleaving -----------------------------------------------------

  function Evens(s: seq<byte>): seq<byte> {
    seq(|s| / 2, k requires 0 <= k < |s| / 2 => s[2 * k])
  }

  function Odds(s: seq<byte>): seq<byte> {
    seq(|s| / 2, k requires 0 <= k < |s| / 2 => s[2 * k + 1])
  }

  function Interleave(u: seq<byte>, v: seq<byte>): seq<byte>
    requires |u| == |v|
  {
    seq(2 * |u|, k requires 0 <= k < 2 * |u| => if k % 2 == 0 then u[k / 2] else v[k / 2])
  }

  /** Interleaving and de-interleaving are inverse to each other. */
  lemma InterleaveRoundTrip(u: seq<byte>, v: seq<byte>)
    requires |u| == |v|
    ensures Evens(Interleave(u, v)) == u && Odds(Interleave(u, v)) == v
  {
    forall k | 0 <= k < |u|
      ensures Evens(Interleave(u, v))[k] == u[k] && Odds(Interleave(u, v))[k] == v[k]
    {
      assert Interleave(u, v)[2 * k] == u[k] && Interleave(u, v)[2 * k + 1] == v[k];
    }
  }

  lemma DeinterleaveRoundTrip(s: seq<byte>)
    requires |s| % 2 == 0
    ensures Interleave(Evens(s), Odds(s)) == s
  {}

  lemma DeinterleaveAppend(s: seq<byte>, t: seq<byte>)
    requires |s| % 2 == 0
    ensures Evens(s + t) == Evens(s) + Evens(t)
    ensures Odds(s + t) == Odds(s) + Odds(t)
  {
    forall k | 0 <= k < |t| / 2
      ensures Evens(s + t)[|s| / 2 + k] == Evens(t)[k] && Odds(s + t)[|s| / 2 + k] == Odds(t)[k]
    {
      assert 2 * (|s| / 2 + k) == |s| + 2 * k;
    }
  }

  // ----- Copy loops -------------------------------------------------------

  /** memcpy(dst + d, src + s, n). */
  method Memcpy(dst: array<byte>, d: nat, src: array<byte>, s: nat, n: nat)
    requires dst != src && d + n <= dst.Length && s + n <= src.Length
    modifies dst
    ensures dst[..d + n] == old(dst[..d]) + src[s..s + n]
    ensures dst[d + n..] == old(dst[d + n..])
  {
    for k := 0 to n
      invariant dst[..d + k] == old(dst[..d]) + src[s..s + k]
      invariant dst[d + k..] == old(dst[d + k..])
    {
      ghost var before := dst[..];
      assert before[d + k..] == old(dst[d + k..]);
      dst[d + k] := src[s + k];
      assert dst[..d + k + 1] == before[..d + k] + [src[s + k]];
      assert src[s..s + k + 1] == src[s..s + k] + [src[s + k]];
      assert dst[d + k + 1..] == before[d + k..][1..];
      assert old(dst[d + k + 1..]) == old(dst[d + k..])[1..];
    }
  }

  /** csc_deinterleave_memcpy(dst1 + d, dst2 + d, src + s, n). */
  method DeinterleaveMemcpy(dst1: array<byte>, dst2: array<byte>, d: nat, src: array<byte>, s: nat, n: nat)
    requires dst1 != src && dst2 != src && dst1 != dst2
    requires d + n / 2 <= dst1.Length && d + n / 2 <= dst2.Length && s + n <= src.Length
    modifies dst1, dst2
    ensures dst1[..d + n / 2] == old(dst1[..d]) + Evens(src[s..s + n])
    ensures dst2[..d + n / 2] == old(dst2[..d]) + Odds(src[s..s + n])
    ensures dst1[d + n / 2..] == old(dst1[d + n / 2..])
    ensures dst2[d + n / 2..] == old(dst2[d + n / 2..])
    ensures forall k :: 0 <= k < n / 2 ==> dst1[d + k] == src[s + 2 * k] && dst2[d + k] == src[s + 2 * k + 1]
  {
    ghost var ev := Evens(src[s..s + n]);
    ghost var od := Odds(src[s..s + n]);
    for i := 0 to n / 2
      invariant forall k :: 0 <= k < d ==> dst1[k] == old(dst1[k]) && dst2[k] == old(dst2[k])
      invariant forall k :: d <= k < d + i ==> dst1[k] == ev[k - d] && dst2[k] == od[k - d]
      invariant forall k :: d + i <= k < dst1.Length ==> dst1[k] == old(dst1[k])
      invariant forall k :: d + i <= k < dst2.Length ==> dst2[k] == old(dst2[k])
    {
      assert ev[i] == src[s..s + n][2 * i] && od[i] == src[s..s + n][2 * i + 1];
      dst1[d + i] := src[s + i * 2];
      dst2[d + i] := src[s + i * 2 + 1];
    }
  }

  /** csc_interleave_memcpy(dst + d, src1 + s, src2 + s, n). */
  method InterleaveMemcpy(dst: array<byte>, d: nat, src1: array<byte>, src2: array<byte>, s: nat, n: nat)
    requires dst != src1 && dst != src2
    requires d + 2 * n <= dst.Length && s + n <= src1.Length && s + n <= src2.Length
    modifies dst
    ensures dst[..d + 2 * n] == old(dst[..d]) + Interleave(src1[s..s + n], src2[s..s + n])
    ensures dst[d + 2 * n..] == old(dst[d + 2 * n..])
    ensures forall k :: 0 <= k < n ==> dst[d + 2 * k] == src1[s + k] && dst[d + 2 * k + 1] == src2[s + k]
  {
    ghost var il := Interleave(src1[s..s + n], src2[s..s + n]);
    for i := 0 to n
      invariant forall k :: 0 <= k < d ==> dst[k] == old(dst[k])
      invariant forall k :: d <= k < d + 2 * i ==> dst[k] == il[k - d]
      invariant forall k :: d + 2 * i <= k < dst.Length ==> dst[k] == old(dst[k])
    {
      assert il[2 * i] == src1[s + i] && il[2 * i + 1] == src2[s + i];
      dst[d + i * 2] := src1[s + i];
      dst[d + i * 2 + 1] := src2[s + i];
    }
  }

  /** What a copy leaves, byte by byte. */
  lemma Spliced(d1: seq<byte>, d: seq<byte>, s: nat, strip: seq<byte>)
    requires s + |strip| <= |d| && |d1| == |d|
    requires d1[..s + |strip|] == d[..s] + strip && d1[s + |strip|..] == d[s + |strip|..]
    ensures forall k {:trigger d1[k]} | 0 <= k < |d| ::
              d1[k] == if s <= k < s + |strip| then strip[k - s] else d[k]
  {
    forall k: nat | k < |d|
      ensures d1[k] == if s <= k < s + |strip| then strip[k - s] else d[k]
    {
      if k < s + |strip| {
        assert d1[k] == d1[..s + |strip|][k];
      } else {
        assert d1[k] == d1[s + |strip|..][k - s - |strip|];
        assert d[k] == d[s + |strip|..][k - s - |strip|];
      }
    }
  }
}
