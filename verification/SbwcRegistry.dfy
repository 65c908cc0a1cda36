/** The registry of libsbwchelper: for every compressed (SBWC) buffer in use, the YUV buffer it is
    decompressed into and how often it has been asked for. Two maps that point at each other, a count
    per YUV buffer that is never erased, and the pair of the last decode. */
module SbwcRegistry {
  import opened Common

  /** An AHardwareBuffer address; 0 is the null pointer. */
  type Buffer = nat

  /** A native handle; 0 is the null handle. */
  type Handle = nat

  // ----- The tables, as the source keeps them -----------------------------

  datatype Tables = Tables(
    yuvToSbwc: map<Buffer, Buffer>, sbwcToYuv: map<Buffer, Buffer>, ref: map<Buffer, int>,
    held: map<Buffer, int>)  // acquires minus releases of each SBWC buffer

  function Held(held: map<Buffer, int>, b: Buffer): int { if b in held then held[b] else 0 }

  function Adjust(held: map<Buffer, int>, b: Buffer, delta: int): map<Buffer, int> { held[b := Held(held, b) + delta] }

  /** newYuvAHB, both forms: the YUV buffer handed out, if any. alloc is what the allocator would give. */
  function NewYuv(t: Tables, sbwc: Buffer, isSbwc: bool, alloc: Option<Buffer>): (Tables, Option<Buffer>)
    requires Inv(t)
  {
    if sbwc == 0 || !isSbwc then (t, None)
    else if sbwc in t.sbwcToYuv then
      var yuv := t.sbwcToYuv[sbwc];
      (t.(ref := t.ref[yuv := t.ref[yuv] + 1], held := Adjust(t.held, sbwc, 1)), Some(yuv))
    else if alloc.None? then (t, None)
    else
      var yuv := alloc.value;
      // insert leaves an entry that is already there alone
      (Tables(if yuv in t.yuvToSbwc then t.yuvToSbwc else t.yuvToSbwc[yuv := sbwc],
              t.sbwcToYuv[sbwc := yuv],
              if yuv in t.ref then t.ref else t.ref[yuv := 1],
              Adjust(t.held, sbwc, 1)),
       Some(yuv))
  }

  /** freeYuvAHB, both forms: whether it succeeded, and whether the YUV buffer itself was released. */
  function FreeYuv(t: Tables, yuv: Buffer): (Tables, bool, bool)
    requires Inv(t)
  {
    if yuv == 0 then (t, false, false)
    else if yuv !in t.yuvToSbwc || t.ref[yuv] <= 0 then (t, false, false)
    else
      var sbwc := t.yuvToSbwc[yuv];
      if t.ref[yuv] > 1 then (t.(ref := t.ref[yuv := t.ref[yuv] - 1], held := Adjust(t.held, sbwc, -1)), true, false)
      else (t.(sbwcToYuv := t.sbwcToYuv - {sbwc}, yuvToSbwc := t.yuvToSbwc - {yuv}, held := Adjust(t.held, sbwc, -1)), true, true)
  }

  // ----- The invariant ----------------------------------------------------

  /** The two maps are inverse to each other. */
  ghost predicate Inverse(t: Tables) {
    && (forall y | y in t.yuvToSbwc :: t.yuvToSbwc[y] in t.sbwcToYuv && t.sbwcToYuv[t.yuvToSbwc[y]] == y)
    && (forall s | s in t.sbwcToYuv :: t.sbwcToYuv[s] in t.yuvToSbwc && t.yuvToSbwc[t.sbwcToYuv[s]] == s)
  }

  /** Buffers in use have a positive count; a stale count is 1. */
  ghost predicate Counted(t: Tables) {
    && (forall y | y in t.yuvToSbwc :: y in t.ref && t.ref[y] >= 1)
    && (forall y | y in t.ref && y !in t.yuvToSbwc :: t.ref[y] == 1)
  }

  /** What the caller of the buffer holds is its count. */
  ghost predicate HeldOk(t: Tables, s: Buffer)
    requires Inverse(t) && Counted(t)
  {
    Held(t.held, s) == if s in t.sbwcToYuv then t.ref[t.sbwcToYuv[s]] else 0
  }

  ghost predicate Inv(t: Tables) {
    Inverse(t) && Counted(t) && forall s :: HeldOk(t, s)
  }

  /** The allocator never returns null or a buffer that is in use. */
  predicate FreshAlloc(t: Tables, alloc: Option<Buffer>) {
    alloc.Some? ==> alloc.value != 0 && alloc.value !in t.yuvToSbwc
  }

  lemma NewYuvKeepsInv(t: Tables, sbwc: Buffer, isSbwc: bool, alloc: Option<Buffer>)
    requires Inv(t) && FreshAlloc(t, alloc)
    ensures Inv(NewYuv(t, sbwc, isSbwc, alloc).0)
  {
    hide HeldOk;
    var t' := NewYuv(t, sbwc, isSbwc, alloc).0;
    assert Inverse(t') && Counted(t');
    forall s
      ensures HeldOk(t', s)
    {
      assert HeldOk(t, s);
      NewYuvKeepsHeld(t, t', sbwc, isSbwc, alloc, s);
    }
  }

  lemma NewYuvKeepsHeld(t: Tables, t': Tables, sbwc: Buffer, isSbwc: bool, alloc: Option<Buffer>, s: Buffer)
    requires Inv(t) && FreshAlloc(t, alloc) && t' == NewYuv(t, sbwc, isSbwc, alloc).0
    requires Inverse(t) && Counted(t) && Inverse(t') && Counted(t') && HeldOk(t, s)
    ensures HeldOk(t', s)
  {
    hide Inv;
    assert s in t.sbwcToYuv ==> t.yuvToSbwc[t.sbwcToYuv[s]] == s;
  }

  lemma FreeYuvKeepsInv(t: Tables, yuv: Buffer)
    requires Inv(t)
    ensures Inv(FreeYuv(t, yuv).0)
  {
    hide HeldOk;
    var t' := FreeYuv(t, yuv).0;
    assert Inverse(t') by {
      forall s | s in t'.sbwcToYuv
        ensures t'.sbwcToYuv[s] in t'.yuvToSbwc && t'.yuvToSbwc[t'.sbwcToYuv[s]] == s
      {
        assert t.sbwcToYuv[s] in t.yuvToSbwc && t.yuvToSbwc[t.sbwcToYuv[s]] == s;
      }
    }
    assert Counted(t');
    forall s
      ensures HeldOk(t', s)
    {
      assert HeldOk(t, s);
      FreeYuvKeepsHeld(t, t', yuv, s);
    }
  }

  lemma FreeYuvKeepsHeld(t: Tables, t': Tables, yuv: Buffer, s: Buffer)
    requires Inv(t) && t' == FreeYuv(t, yuv).0
    requires Inverse(t) && Counted(t) && Inverse(t') && Counted(t') && HeldOk(t, s)
    ensures HeldOk(t', s)
  {
    hide Inv;
    assert s in t.sbwcToYuv ==> t.yuvToSbwc[t.sbwcToYuv[s]] == s;
  }

  // ----- What the tables stand for ----------------------------------------

  datatype Entry = Entry(yuv: Buffer, count: int)

  /** One entry per SBWC buffer in use. */
  type Book = map<Buffer, Entry>

  ghost function Abs(t: Tables): Book
    requires Inv(t)
  {
    map s | s in t.sbwcToYuv :: Entry(t.sbwcToYuv[s], t.ref[t.sbwcToYuv[s]])
  }

  function BookNew(b: Book, sbwc: Buffer, alloc: Option<Buffer>): (Book, Option<Buffer>) {
    if sbwc in b then (b[sbwc := Entry(b[sbwc].yuv, b[sbwc].count + 1)], Some(b[sbwc].yuv))
    else if alloc.None? then (b, None)
    else (b[sbwc := Entry(alloc.value, 1)], alloc)
  }

  /** Giving back one use of the entry of sbwc. */
  function BookFree(b: Book, sbwc: Buffer): Book
    requires sbwc in b
  {
    if b[sbwc].count > 1 then b[sbwc := Entry(b[sbwc].yuv, b[sbwc].count - 1)] else b - {sbwc}
  }

  lemma NewYuvRefines(t: Tables, sbwc: Buffer, isSbwc: bool, alloc: Option<Buffer>)
    requires Inv(t) && FreshAlloc(t, alloc)
    ensures var (t', out) := NewYuv(t, sbwc, isSbwc, alloc);
            && Inv(t')
            && (if sbwc == 0 || !isSbwc then t' == t && out == None else (Abs(t'), out) == BookNew(Abs(t), sbwc, alloc))
  {
    hide HeldOk, Abs;
    NewYuvKeepsInv(t, sbwc, isSbwc, alloc);
    AbsKeys(t);
    if sbwc != 0 && isSbwc {
      if sbwc in t.sbwcToYuv { NewAgain(t, sbwc, alloc); }
      else if alloc.Some? { NewFresh(t, sbwc, alloc.value); }
    }
  }

  lemma AbsKeys(t: Tables)
    requires Inv(t)
    ensures Abs(t).Keys == t.sbwcToYuv.Keys
    ensures forall s | s in t.sbwcToYuv :: Abs(t)[s] == Entry(t.sbwcToYuv[s], t.ref[t.sbwcToYuv[s]])
  {}

  lemma NewAgain(t: Tables, sbwc: Buffer, alloc: Option<Buffer>)
    requires Inv(t) && sbwc != 0 && sbwc in t.sbwcToYuv && Inv(NewYuv(t, sbwc, true, alloc).0)
    ensures Abs(NewYuv(t, sbwc, true, alloc).0) == Abs(t)[sbwc := Entry(t.sbwcToYuv[sbwc], t.ref[t.sbwcToYuv[sbwc]] + 1)]
  {
    hide HeldOk;
    forall s | s in t.sbwcToYuv && s != sbwc
      ensures t.sbwcToYuv[s] != t.sbwcToYuv[sbwc]
    {
      assert t.yuvToSbwc[t.sbwcToYuv[s]] == s;
    }
  }

  lemma NewFresh(t: Tables, sbwc: Buffer, yuv: Buffer)
    requires Inv(t) && sbwc != 0 && sbwc !in t.sbwcToYuv && FreshAlloc(t, Some(yuv))
    requires Inv(NewYuv(t, sbwc, true, Some(yuv)).0)
    ensures Abs(NewYuv(t, sbwc, true, Some(yuv)).0) == Abs(t)[sbwc := Entry(yuv, 1)]
  {
    hide HeldOk, Held, Adjust;
    forall s | s in t.sbwcToYuv
      ensures t.sbwcToYuv[s] != yuv
    {
      assert t.sbwcToYuv[s] in t.yuvToSbwc;
    }
  }

  /** A free succeeds exactly for the YUV buffer of some entry; else nothing changes. */
  lemma FreeYuvRefines(t: Tables, yuv: Buffer)
    requires Inv(t)
    ensures var (t', ok, released) := FreeYuv(t, yuv);
            && Inv(t')
            && (ok <==> yuv != 0 && exists s :: s in Abs(t) && Abs(t)[s].yuv == yuv)
            && (!ok ==> t' == t)
            && forall s | ok && s in Abs(t) && Abs(t)[s].yuv == yuv ::
                 Abs(t') == BookFree(Abs(t), s) && released == (Abs(t)[s].count == 1)
  {
    hide HeldOk;
    FreeYuvKeepsInv(t, yuv);
    var (t', ok, released) := FreeYuv(t, yuv);
    if yuv in t.yuvToSbwc {
      assert t.yuvToSbwc[yuv] in Abs(t) && Abs(t)[t.yuvToSbwc[yuv]].yuv == yuv;
    }
    forall s | ok && s in Abs(t) && Abs(t)[s].yuv == yuv
      ensures Abs(t') == BookFree(Abs(t), s) && released == (Abs(t)[s].count == 1)
    {
      assert s == t.yuvToSbwc[yuv];
      FreeAbs(t, yuv);
    }
  }

  lemma FreeAbs(t: Tables, yuv: Buffer)
    requires Inv(t) && yuv != 0 && yuv in t.yuvToSbwc
    ensures Inv(FreeYuv(t, yuv).0) && Abs(FreeYuv(t, yuv).0) == BookFree(Abs(t), t.yuvToSbwc[yuv])
  {
    hide HeldOk;
    FreeYuvKeepsInv(t, yuv);
    var (t', sbwc) := (FreeYuv(t, yuv).0, t.yuvToSbwc[yuv]);
    forall s | s in t.sbwcToYuv && s != sbwc
      ensures t.sbwcToYuv[s] != yuv
    {
      assert t.yuvToSbwc[t.sbwcToYuv[s]] == s;
    }
    var (b, b') := (Abs(t'), BookFree(Abs(t), sbwc));
    assert b.Keys == b'.Keys;
    assert forall s | s in b :: b[s] == b'[s];
  }

  // ----- Every sequence of calls ------------------------------------------

  datatype Call = New(sbwc: Buffer, isSbwc: bool, alloc: Option<Buffer>) | Free(yuv: Buffer)

  ghost function After(t: Tables, calls: seq<Call>): Tables
    requires Inv(t) && Plausible(t, calls)
    ensures Inv(After(t, calls))
    decreases |calls|
  {
    if calls == [] then t else
    OneKeepsInv(t, calls[0]);
    After(One(t, calls[0]), calls[1..])
  }

  ghost function One(t: Tables, c: Call): Tables
    requires Inv(t)
  {
    if c.New? then NewYuv(t, c.sbwc, c.isSbwc, c.alloc).0 else FreeYuv(t, c.yuv).0
  }

  lemma OneKeepsInv(t: Tables, c: Call)
    requires Inv(t) && (c.New? ==> FreshAlloc(t, c.alloc))
    ensures Inv(One(t, c))
  {
    if c.New? { NewYuvKeepsInv(t, c.sbwc, c.isSbwc, c.alloc); } else { FreeYuvKeepsInv(t, c.yuv); }
  }

  /** Every allocation on the way is fresh at its time. */
  ghost predicate Plausible(t: Tables, calls: seq<Call>)
    requires Inv(t)
    decreases |calls|
  {
    calls == [] ||
    ((calls[0].New? ==> FreshAlloc(t, calls[0].alloc)) &&
     (OneKeepsInv(t, calls[0]); Plausible(One(t, calls[0]), calls[1..])))
  }

  const EMPTY := Tables(map[], map[], map[], map[])

  /** Calls that handed out or took back one use of an SBWC buffer: +1 and -1. */
  ghost function Uses(t: Tables, calls: seq<Call>, sbwc: Buffer): int
    requires Inv(t) && Plausible(t, calls)
    decreases |calls|
  {
    if calls == [] then 0 else
    OneKeepsInv(t, calls[0]);
    Uses(One(t, calls[0]), calls[1..], sbwc) + Use(t, calls[0], sbwc)
  }

  ghost function Use(t: Tables, c: Call, sbwc: Buffer): int
    requires Inv(t)
  {
    if c.New? then if c.sbwc == sbwc && NewYuv(t, c.sbwc, c.isSbwc, c.alloc).1.Some? then 1 else 0
    else if c.yuv != 0 && c.yuv in t.yuvToSbwc && t.yuvToSbwc[c.yuv] == sbwc then -1 else 0
  }

  /** After every sequence of calls the two maps are inverse to each other, and the acquires minus the
      releases of each SBWC buffer are its count, which is the number of uses handed out and not taken back. */
  lemma {:induction false} CountsAreUses(t: Tables, calls: seq<Call>, sbwc: Buffer)
    requires Inv(t) && Plausible(t, calls)
    ensures var b := Abs(After(t, calls));
            && (sbwc in b ==> b[sbwc].count >= 1)
            && Held(After(t, calls).held, sbwc) == (if sbwc in b then b[sbwc].count else 0)
            && CountOf(After(t, calls), sbwc) == CountOf(t, sbwc) + Uses(t, calls, sbwc)
    decreases |calls|
  {
    if calls != [] {
      OneKeepsInv(t, calls[0]);
      CountsAreUses(One(t, calls[0]), calls[1..], sbwc);
      OneCount(t, calls[0], sbwc);
    }
    assert HeldOk(After(t, calls), sbwc);
  }

  ghost function CountOf(t: Tables, sbwc: Buffer): int
    requires Inv(t)
  {
    if sbwc in Abs(t) then Abs(t)[sbwc].count else 0
  }

  lemma OneCount(t: Tables, c: Call, sbwc: Buffer)
    requires Inv(t) && (c.New? ==> FreshAlloc(t, c.alloc))
    ensures Inv(One(t, c))
    ensures CountOf(One(t, c), sbwc) - CountOf(t, sbwc) == Use(t, c, sbwc)
  {
    hide HeldOk, Abs, Inverse, Counted, CountOf, Use;
    OneKeepsInv(t, c);
    if c.New? {
      NewCount(t, c, sbwc);
    } else {
      FreeCount(t, c, sbwc);
    }
  }

  lemma NewCount(t: Tables, c: Call, sbwc: Buffer)
    requires Inv(t) && c.New? && FreshAlloc(t, c.alloc) && Inv(One(t, c))
    ensures CountOf(One(t, c), sbwc) - CountOf(t, sbwc) == Use(t, c, sbwc)
  {
    hide HeldOk, Abs, Inverse, Counted;
    AbsKeys(t);
    NewYuvRefines(t, c.sbwc, c.isSbwc, c.alloc);
  }

  lemma FreeCount(t: Tables, c: Call, sbwc: Buffer)
    requires Inv(t) && c.Free? && Inv(One(t, c))
    ensures CountOf(One(t, c), sbwc) - CountOf(t, sbwc) == Use(t, c, sbwc)
  {
    hide HeldOk, Abs;
    AbsKeys(t);
    if c.yuv != 0 && c.yuv in t.yuvToSbwc {
      FreeAbs(t, c.yuv);
    }
  }

  /** A YUV address that comes back from the allocator starts at 1 again, in spite of its stale count. */
  lemma ReusedAddressStartsAtOne(t: Tables, sbwc: Buffer, yuv: Buffer)
    requires Inv(t) && sbwc != 0 && sbwc !in t.sbwcToYuv && FreshAlloc(t, Some(yuv))
    ensures var t' := NewYuv(t, sbwc, true, Some(yuv)).0;
            Inv(t') && Abs(t')[sbwc] == Entry(yuv, 1)
  {
    NewYuvRefines(t, sbwc, true, Some(yuv));
  }

  // ----- The registry object ----------------------------------------------

  /** One call to the decompression service: from which handle, to which, and whether it succeeded. */
  datatype Decode = Decode(sbwc: Handle, yuv: Handle, ok: bool)

  class Registry {
    var yuvToSbwc: map<Buffer, Buffer>
    var sbwcToYuv: map<Buffer, Buffer>
    var ref: map<Buffer, int>
    ghost var held: map<Buffer, int>
    var lastSrc: Handle
    var lastDst: Handle
    var decodes: seq<Decode>

    ghost function Model(): Tables
      reads this
    {
      Tables(yuvToSbwc, sbwcToYuv, ref, held)
    }

    /** The remembered pair, if any, is the one of the last call to the service, and that call succeeded. */
    ghost predicate CacheOk()
      reads this
    {
      (lastSrc, lastDst) != (0, 0) ==> decodes != [] && decodes[|decodes| - 1] == Decode(lastDst, lastSrc, true)
    }

    ghost predicate Valid()
      reads this
    {
      Inv(Model()) && CacheOk()
    }

    constructor ()
      ensures Valid() && Model() == EMPTY && decodes == []
    {
      yuvToSbwc, sbwcToYuv, ref, held := map[], map[], map[], map[];
      lastSrc, lastDst, decodes := 0, 0, [];
    }

    /** newYuvAHB: the new form returns ok and stores out, the deprecated one returns out or null. */
    method NewYuvAHB(inSbwc: Buffer, isSbwc: bool, alloc: Option<Buffer>) returns (ok: bool, out: Option<Buffer>)
      requires Valid() && FreshAlloc(Model(), alloc)
      modifies this
      ensures Valid() && (Model(), out) == NewYuv(old(Model()), inSbwc, isSbwc, alloc) && ok == out.Some?
      ensures decodes == old(decodes) && (lastSrc, lastDst) == old((lastSrc, lastDst))
      ensures out == if inSbwc == 0 || !isSbwc then None
                     else if inSbwc in old(sbwcToYuv) then Some(old(sbwcToYuv)[inSbwc]) else alloc
      ensures out.Some? ==> inSbwc in sbwcToYuv && sbwcToYuv[inSbwc] == out.value
    {
      hide HeldOk, Held;
      NewYuvKeepsInv(Model(), inSbwc, isSbwc, alloc);
      InUse(Model(), inSbwc);
      hide Inverse, Counted, Inv;
      if inSbwc == 0 || !isSbwc {
        return false, None;
      }
      if inSbwc in sbwcToYuv {
        var yuv := sbwcToYuv[inSbwc];
        ref := ref[yuv := ref[yuv] + 1];
        held := Adjust(held, inSbwc, 1);
        return true, Some(yuv);
      }
      if alloc.None? {
        return false, None;
      }
      var yuv := alloc.value;
      if yuv !in yuvToSbwc {
        yuvToSbwc := yuvToSbwc[yuv := inSbwc];
      }
      sbwcToYuv := sbwcToYuv[inSbwc := yuv];
      if yuv !in ref {
        ref := ref[yuv := 1];
      }
      held := Adjust(held, inSbwc, 1);
      return true, Some(yuv);
    }

    /** freeYuvAHB: the new form also sets the caller's pointer to null when the buffer is released. */
    method FreeYuvAHB(inYuv: Buffer) returns (ok: bool, pointer: Buffer)
      requires Valid()
      modifies this
      ensures Valid() && Model() == FreeYuv(old(Model()), inYuv).0 && ok == FreeYuv(old(Model()), inYuv).1
      ensures pointer == if FreeYuv(old(Model()), inYuv).2 then 0 else inYuv
      ensures ok <==> inYuv != 0 && inYuv in old(yuvToSbwc)
      ensures pointer == if ok && old(ref)[inYuv] == 1 then 0 else inYuv
      ensures decodes == old(decodes)
      ensures (lastSrc, lastDst) == if pointer != inYuv && yuvToSbwc == map[] then (0, 0) else old((lastSrc, lastDst))
    {
      hide HeldOk, Held;
      FreeYuvKeepsInv(Model(), inYuv);
      IsCounted(Model(), inYuv);
      hide Inverse, Counted, Inv;
      pointer := inYuv;
      if inYuv == 0 {
        return false, pointer;
      }
      if inYuv !in yuvToSbwc || ref[inYuv] <= 0 {
        return false, pointer;
      } else if ref[inYuv] > 1 {
        ref := ref[inYuv := ref[inYuv] - 1];
        held := Adjust(held, yuvToSbwc[inYuv], -1);
        return true, pointer;
      }
      Release(inYuv);
      pointer := 0;
      ForgetIfEmpty();
      return true, pointer;
    }

    /** The last use is given back: both map entries go, the count stays. */
    method Release(inYuv: Buffer)
      requires Inv(Model()) && FreeYuv(Model(), inYuv).2
      modifies this`yuvToSbwc, this`sbwcToYuv, this`held
      ensures Model() == FreeYuv(old(Model()), inYuv).0 && Inv(Model())
    {
      hide HeldOk, Held;
      FreeYuvKeepsInv(Model(), inYuv);
      hide Inverse, Counted, Inv;
      var sbwc := yuvToSbwc[inYuv];
      sbwcToYuv := sbwcToYuv - {sbwc};
      yuvToSbwc := yuvToSbwc - {inYuv};
      held := Adjust(held, sbwc, -1);
    }

    /** With no buffer left the last decode is forgotten. */
    method ForgetIfEmpty()
      requires Inverse(Model()) && CacheOk()
      modifies this`lastSrc, this`lastDst
      ensures CacheOk() && (lastSrc, lastDst) == if yuvToSbwc == map[] then (0, 0) else old((lastSrc, lastDst))
    {
      BothEmpty(Model());
      hide Inverse;
      if |sbwcToYuv| == 0 && |yuvToSbwc| == 0 {
        lastSrc, lastDst := 0, 0;
      }
    }

    /** decompress and requestDecompress. The handles of the two buffers, whether the service can be
        reached and whether it decodes are given. A true answer means the last call to the service
        decoded this very pair of handles, unless both buffers have lost their handles; a skipped call
        leaves the service alone. */
    method Decompress(inSbwc: Buffer, yuvHandle: Handle, sbwcHandle: Handle, reachable: bool, decodes_: bool)
      returns (ok: bool)
      requires Valid()
      modifies this`lastSrc, this`lastDst, this`decodes
      ensures Valid()
      ensures ok && (yuvHandle, sbwcHandle) != (0, 0) ==>
                decodes != [] && decodes[|decodes| - 1] == Decode(sbwcHandle, yuvHandle, true)
      ensures inSbwc == 0 || inSbwc !in sbwcToYuv ==>
                !ok && decodes == old(decodes) && (lastSrc, lastDst) == old((lastSrc, lastDst))
      ensures inSbwc != 0 && inSbwc in sbwcToYuv ==>
                var same := old((lastSrc, lastDst)) == (yuvHandle, sbwcHandle);
                && decodes == old(decodes) + (if same || !reachable then [] else [Decode(sbwcHandle, yuvHandle, decodes_)])
                && (ok <==> same || (reachable && decodes_))
                && (lastSrc, lastDst) == (if same || !reachable then old((lastSrc, lastDst))
                                          else if decodes_ then (yuvHandle, sbwcHandle) else (0, 0))
    {
      if inSbwc == 0 || inSbwc !in sbwcToYuv {
        return false;
      }
      if lastSrc == yuvHandle && lastDst == sbwcHandle {
        return true;
      }
      if !reachable {
        return false;
      }
      decodes := decodes + [Decode(sbwcHandle, yuvHandle, decodes_)];
      if !decodes_ {
        lastSrc, lastDst := 0, 0;
        return false;
      }
      lastSrc, lastDst := yuvHandle, sbwcHandle;
      return true;
    }
  }

  lemma InUse(t: Tables, sbwc: Buffer)
    requires Inv(t)
    ensures sbwc in t.sbwcToYuv ==> t.sbwcToYuv[sbwc] in t.ref
  {
    hide HeldOk;
  }

  lemma IsCounted(t: Tables, yuv: Buffer)
    requires Inv(t)
    ensures yuv in t.yuvToSbwc ==> yuv in t.ref && t.ref[yuv] >= 1
  {
    hide HeldOk;
  }

  lemma BothEmpty(t: Tables)
    requires Inverse(t)
    ensures |t.sbwcToYuv| == 0 && |t.yuvToSbwc| == 0 <==> t.yuvToSbwc == map[]
  {
    if t.yuvToSbwc == map[] {
      assert forall s :: s !in t.sbwcToYuv;
      assert t.sbwcToYuv == map[];
    }
  }
}
