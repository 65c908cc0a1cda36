/** The table-driven 16-bit CRC of libdisplaycolor/libdisplaycolor_default.cpp, against the bit-serial one. */
module Crc16 {
  import opened Bytes

  /** DQE_COLORMODE_MAGIC, which is both the polynomial and the initial value. */
  const MAGIC: bv16 := 0xDA

  // ----- Register operations, named so that proofs can use their laws alone

  function Xor(a: bv16, b: bv16): bv16 { a ^ b }

  function Half(c: bv16): bv16 { c >> 1 }

  function High(c: bv16): bv16 { c >> 8 }

  function Low(c: bv16): bv16 { c & 0xFF }

  predicate IsOdd(c: bv16) { c & 1 != 0 }

  lemma XorTwice(p: bv16, x: bv16)
    ensures Xor(p, Xor(p, x)) == x
  {}

  lemma XorLeft(p: bv16, x: bv16, y: bv16)
    ensures Xor(p, Xor(x, y)) == Xor(Xor(p, x), y)
  {}

  lemma XorRight(p: bv16, x: bv16, y: bv16)
    ensures Xor(p, Xor(x, y)) == Xor(x, Xor(p, y))
  {}

  lemma XorBoth(p: bv16, x: bv16, y: bv16)
    ensures Xor(Xor(p, x), Xor(p, y)) == Xor(x, y)
  {
    hide Xor;
    XorRight(p, Xor(p, x), y);
    XorLeft(p, x, y);
    XorTwice(p, Xor(x, y));
  }

  lemma XorHalf(a: bv16, b: bv16)
    ensures Half(Xor(a, b)) == Xor(Half(a), Half(b))
    ensures IsOdd(Xor(a, b)) <==> IsOdd(a) != IsOdd(b)
  {}

  lemma HighAndLow(c: bv16)
    ensures c == Xor(Low(c), c & 0xFF00) && Low(c & 0xFF00) == 0 && High(c & 0xFF00) == High(c)
  {}

  lemma HighOfXor(c: bv16, v: bv16)
    requires v < 0x100
    ensures High(Xor(c, v)) == High(c)
  {}

  // ----- Bit-serial definition --------------------------------------------

  /** One shift of the register. */
  function Step(poly: bv16, c: bv16): bv16 {
    if IsOdd(c) then Xor(poly, Half(c)) else Half(c)
  }

  function Steps(poly: bv16, c: bv16, n: nat): bv16
    decreases n
  {
    if n == 0 then c else Steps(poly, Step(poly, c), n - 1)
  }

  /** Feeds the lowest n bits of v, least significant first: shift, and add the polynomial when the bit that
      falls out differs from the message bit. */
  function FeedBits(poly: bv16, c: bv16, v: bv16, n: nat): bv16
    decreases n
  {
    if n == 0 then c
    else FeedBits(poly, if IsOdd(c) != IsOdd(v) then Xor(poly, Half(c)) else Half(c), Half(v), n - 1)
  }

  function Feed(poly: bv16, c: bv16, message: seq<byte>): bv16
    decreases |message|
  {
    if message == [] then c
    else FeedBits(poly, Feed(poly, c, message[..|message| - 1]), message[|message| - 1] as bv16, 8)
  }

  /** The CRC of a message: initial value in, bits in, all bits inverted. */
  function Crc(poly: bv16, initial: bv16, message: seq<byte>): bv16 {
    Xor(Feed(poly, initial, message), 0xFFFF)
  }

  // ----- Linearity --------------------------------------------------------

  lemma StepIsLinear(poly: bv16, a: bv16, b: bv16)
    ensures Step(poly, Xor(a, b)) == Xor(Step(poly, a), Step(poly, b))
  {
    hide Xor, Half, IsOdd;
    XorHalf(a, b);
    XorBoth(poly, Half(a), Half(b));
    XorLeft(poly, Half(a), Half(b));
    XorRight(poly, Half(a), Half(b));
  }

  lemma {:induction false} StepsIsLinear(poly: bv16, a: bv16, b: bv16, n: nat)
    ensures Steps(poly, Xor(a, b), n) == Xor(Steps(poly, a, n), Steps(poly, b, n))
    decreases n
  {
    hide Xor, Step;
    if n > 0 {
      StepIsLinear(poly, a, b);
      StepsIsLinear(poly, Step(poly, a), Step(poly, b), n - 1);
    }
  }

  lemma EvenStep(poly: bv16, c: bv16, d: bv16)
    requires !IsOdd(c) && Half(c) == d
    ensures Step(poly, c) == d
  {}

  lemma LowBitsClear(c: bv16)
    requires Low(c) == 0
    ensures !IsOdd(c) && !IsOdd(c >> 1) && !IsOdd(c >> 2) && !IsOdd(c >> 3)
    ensures !IsOdd(c >> 4) && !IsOdd(c >> 5) && !IsOdd(c >> 6) && !IsOdd(c >> 7)
    ensures Half(c) == c >> 1 && Half(c >> 1) == c >> 2 && Half(c >> 2) == c >> 3 && Half(c >> 3) == c >> 4
    ensures Half(c >> 4) == c >> 5 && Half(c >> 5) == c >> 6 && Half(c >> 6) == c >> 7 && Half(c >> 7) == High(c)
  {}

  /** A register whose low byte is clear just moves down a byte: the polynomial never enters. */
  lemma HighByteShifts(poly: bv16, c: bv16)
    requires Low(c) == 0
    ensures Steps(poly, c, 8) == High(c)
  {
    hide Step, Xor, Half, High, Low, IsOdd;
    LowBitsClear(c);
    EvenStep(poly, c, c >> 1);
    EvenStep(poly, c >> 1, c >> 2);
    EvenStep(poly, c >> 2, c >> 3);
    EvenStep(poly, c >> 3, c >> 4);
    EvenStep(poly, c >> 4, c >> 5);
    EvenStep(poly, c >> 5, c >> 6);
    EvenStep(poly, c >> 6, c >> 7);
    EvenStep(poly, c >> 7, High(c));
    assert Steps(poly, c >> 6, 2) == High(c);
    assert Steps(poly, c >> 4, 4) == High(c);
    assert Steps(poly, c >> 2, 6) == High(c);
  }

  /** Eight shifts of the whole register: eight shifts of its low byte, which the table holds, and the high byte. */
  lemma TableStep(poly: bv16, c: bv16)
    ensures Steps(poly, c, 8) == Xor(Steps(poly, Low(c), 8), High(c))
  {
    hide Steps, Xor, High, Low;
    HighAndLow(c);
    StepsIsLinear(poly, Low(c), c & 0xFF00, 8);
    HighByteShifts(poly, c & 0xFF00);
  }

  // ----- The table-driven form is the bit-serial one ----------------------

  function Halves(v: bv16, n: nat): bv16
    decreases n
  {
    if n == 0 then v else Halves(Half(v), n - 1)
  }

  lemma XorZero(c: bv16)
    ensures Xor(c, 0) == c
  {}

  /** Adding all n bits into the register first and then shifting n times is feeding them one by one. */
  lemma {:induction false} FeedIsSteps(poly: bv16, c: bv16, v: bv16, n: nat)
    requires Halves(v, n) == 0
    ensures FeedBits(poly, c, v, n) == Steps(poly, Xor(c, v), n)
    decreases n
  {
    hide Xor, Half, IsOdd;
    if n == 0 {
      XorZero(c);
    } else {
      XorHalf(c, v);
      XorLeft(poly, Half(c), Half(v));
      FeedIsSteps(poly, if IsOdd(c) != IsOdd(v) then Xor(poly, Half(c)) else Half(c), Half(v), n - 1);
    }
  }

  lemma ByteHalves(v: bv16)
    requires v < 0x100
    ensures Halves(v, 8) == 0
  {
    ByteShifts(v);
    hide Half;
    assert Halves(v, 8) == Halves(v >> 2, 6) == Halves(v >> 4, 4) == Halves(v >> 6, 2);
  }

  lemma ByteShifts(v: bv16)
    requires v < 0x100
    ensures Half(v) == v >> 1 && Half(v >> 1) == v >> 2 && Half(v >> 2) == v >> 3 && Half(v >> 3) == v >> 4
    ensures Half(v >> 4) == v >> 5 && Half(v >> 5) == v >> 6 && Half(v >> 6) == v >> 7 && Half(v >> 7) == 0
  {}

  /** One table look-up feeds one byte. */
  lemma LookupFeedsByte(poly: bv16, c: bv16, v: bv16)
    requires v < 0x100
    ensures Xor(Steps(poly, Low(Xor(c, v)), 8), High(c)) == FeedBits(poly, c, v, 8)
  {
    hide Xor, Steps, Halves, High, Low, FeedBits;
    ByteHalves(v);
    FeedIsSteps(poly, c, v, 8);
    TableStep(poly, Xor(c, v));
    HighOfXor(c, v);
  }

  // ----- A check value ----------------------------------------------------

  /** With the polynomial 0x8408, bits reversed, and 0xFFFF to begin with, this is CRC-16/X-25 (the frame check sequence of
      HDLC), whose check value for the text "123456789" is 0x906E. */
  lemma CheckValue()
    ensures Crc(0x8408, 0xFFFF, [0x31, 0x32, 0x33, 0x34, 0x35, 0x36, 0x37, 0x38, 0x39]) == 0x906E
  {
    hide FeedBits, Feed, Xor;
    CheckBytes();
    FeedNothing();
    OneMoreByte([], [0x31], 0x31, 0xFFFF, 0x2F8D);
    OneMoreByte([0x31], [0x31, 0x32], 0x32, 0x2F8D, 0x4D53);
    OneMoreByte([0x31, 0x32], [0x31, 0x32, 0x33], 0x33, 0x4D53, 0x634B);
    OneMoreByte([0x31, 0x32, 0x33], [0x31, 0x32, 0x33, 0x34], 0x34, 0x634B, 0x8B13);
    OneMoreByte([0x31, 0x32, 0x33, 0x34], [0x31, 0x32, 0x33, 0x34, 0x35], 0x35, 0x8B13, 0x44BF);
    OneMoreByte([0x31, 0x32, 0x33, 0x34, 0x35], [0x31, 0x32, 0x33, 0x34, 0x35, 0x36], 0x36, 0x44BF, 0x198D);
    OneMoreByte([0x31, 0x32, 0x33, 0x34, 0x35, 0x36], [0x31, 0x32, 0x33, 0x34, 0x35, 0x36, 0x37], 0x37, 0x198D, 0x1AC8);
    OneMoreByte([0x31, 0x32, 0x33, 0x34, 0x35, 0x36, 0x37], [0x31, 0x32, 0x33, 0x34, 0x35, 0x36, 0x37, 0x38], 0x38, 0x1AC8, 0xF795);
    OneMoreByte([0x31, 0x32, 0x33, 0x34, 0x35, 0x36, 0x37, 0x38], [0x31, 0x32, 0x33, 0x34, 0x35, 0x36, 0x37, 0x38, 0x39], 0x39, 0xF795, 0x6F91);
    Inverted();
  }

  lemma FeedNothing()
    ensures Feed(0x8408, 0xFFFF, []) == 0xFFFF
  {}

  lemma OneMoreByte(text: seq<byte>, more: seq<byte>, b: byte, c: bv16, next: bv16)
    requires more == text + [b] && Feed(0x8408, 0xFFFF, text) == c && FeedBits(0x8408, c, b as bv16, 8) == next
    ensures Feed(0x8408, 0xFFFF, more) == next
  {
    hide FeedBits;
    assert more[..|more| - 1] == text;
  }

  lemma Inverted()
    ensures Xor(0x6F91, 0xFFFF) == 0x906E
  {}

  /** The register before and after each byte of that text. */
  lemma CheckBytes()
    ensures FeedBits(0x8408, 0xFFFF, (0x31 as byte) as bv16, 8) == 0x2F8D
    ensures FeedBits(0x8408, 0x2F8D, (0x32 as byte) as bv16, 8) == 0x4D53
    ensures FeedBits(0x8408, 0x4D53, (0x33 as byte) as bv16, 8) == 0x634B
    ensures FeedBits(0x8408, 0x634B, (0x34 as byte) as bv16, 8) == 0x8B13
    ensures FeedBits(0x8408, 0x8B13, (0x35 as byte) as bv16, 8) == 0x44BF
    ensures FeedBits(0x8408, 0x44BF, (0x36 as byte) as bv16, 8) == 0x198D
    ensures FeedBits(0x8408, 0x198D, (0x37 as byte) as bv16, 8) == 0x1AC8
    ensures FeedBits(0x8408, 0x1AC8, (0x38 as byte) as bv16, 8) == 0xF795
    ensures FeedBits(0x8408, 0xF795, (0x39 as byte) as bv16, 8) == 0x6F91
  {}

  // ----- genCrc16Table and getCrc16 ---------------------------------------

  /** Entry k is what eight shifts make of k. */
  ghost predicate IsTable(table: seq<bv16>, poly: bv16) {
    |table| == 256 && forall k: bv16 {:trigger Steps(poly, k, 8)} | k < 256 :: table[k as int] == Steps(poly, k, 8)
  }

  method GenCrc16Table(table: array<bv16>, poly: bv16)
    requires table.Length == 256
    modifies table
    ensures IsTable(table[..], poly)
  {
    hide Steps;
    for i := 0 to 256
      invariant forall k: bv16 {:trigger Steps(poly, k, 8)} | k as int < i :: table[k as int] == Steps(poly, k, 8)
    {
      ghost var before := table[..];
      table[i] := TableEntry(poly, i as bv16);
      forall k: bv16 {:trigger Steps(poly, k, 8)} | k as int < i + 1
        ensures table[k as int] == Steps(poly, k, 8)
      {
        if k as int < i {
          assert table[k as int] == before[k as int];
        } else {
          assert i as bv16 == k;
        }
      }
    }
  }

  method TableEntry(poly: bv16, i: bv16) returns (c: bv16)
    ensures c == Steps(poly, i, 8)
  {
    c := i;
    for j := 0 to 8
      invariant Steps(poly, c, 8 - j) == Steps(poly, i, 8)
    {
      ghost var before := c;
      if IsOdd(c) {
        c := Xor(poly, Half(c));
      } else {
        c := Half(c);
      }
      assert c == Step(poly, before);
    }
  }

  method GetCrc16(table: array<bv16>, ghost poly: bv16, buf: array<byte>, len: nat) returns (crc: bv16)
    requires IsTable(table[..], poly) && len <= buf.Length
    ensures crc == Crc(poly, MAGIC, buf[..len])
  {
    hide Steps, FeedBits;
    var c := MAGIC;
    for i := 0 to len
      invariant c == Feed(poly, MAGIC, buf[..i])
    {
      var v := buf[i] as bv16;
      LookupFeedsByte(poly, c, v);
      assert buf[..i + 1][..i] == buf[..i];
      c := Lookup(table, poly, c, v);
    }
    assert buf[..len] == buf[..len];
    return Xor(c, 0xFFFF);
  }

  method Lookup(table: array<bv16>, ghost poly: bv16, c: bv16, v: bv16) returns (r: bv16)
    requires IsTable(table[..], poly)
    ensures r == Xor(Steps(poly, Low(Xor(c, v)), 8), High(c))
  {
    hide Steps, Xor;
    var k := Low(Xor(c, v));
    r := Xor(table[k as int], High(c));
  }
}
