/** The byte format of the display colour parcel (libdisplaycolor/libdisplaycolor_default.cpp, with the structures of
    libdisplaycolor/include/hardware/exynos/libdisplaycolor_drv.h): what a parcel with given items looks like, which
    items getDqeLut delivers, and what its readers find. Multi-byte fields are little-endian. */
module DqeParcel {
  import opened Bytes
  import opened Common
  import Crc16

  type u16 = x: nat | x < 0x10000
  type Attr = s: seq<byte> | |s| == 4 witness [0, 0, 0, 0]

  const MAGIC: byte := 0xDA
  const HEADER_SIZE: nat := 12
  const GAMMA_MATRIX: byte := 6
  const ID_MAX: byte := 11
  const TRANSFORM_MATRIX_DATA_SIZE: nat := 112

  datatype DataHeader = DataHeader(magic: byte, id: byte, totalSize: u16, headerSize: u16, attr: Attr, crc: u16)

  datatype GlobalHeader =
    GlobalHeader(magic: byte, seqNum: byte, totalSize: u16, headerSize: u16, numData: u16, crc: u16, reserved: u16)

  /** A data header and its text, without the terminating zero. */
  datatype Item = Item(header: DataHeader, data: seq<byte>)

  // ----- Encoding ---------------------------------------------------------

  function Word(x: u16): seq<byte> {
    [(x % 256) as byte, (x / 256) as byte]
  }

  function ReadWord(s: seq<byte>, at: nat): u16
    requires at + 2 <= |s|
  {
    s[at] as int + 256 * s[at + 1] as int
  }

  function EncodeHeader(h: DataHeader): (r: seq<byte>)
    ensures |r| == HEADER_SIZE
  {
    [h.magic, h.id] + Word(h.totalSize) + Word(h.headerSize) + h.attr + Word(h.crc)
  }

  function DecodeHeader(s: seq<byte>, at: nat): DataHeader
    requires at + HEADER_SIZE <= |s|
  {
    DataHeader(s[at], s[at + 1], ReadWord(s, at + 2), ReadWord(s, at + 4), s[at + 6..at + 10], ReadWord(s, at + 10))
  }

  function EncodeGlobal(g: GlobalHeader): (r: seq<byte>)
    ensures |r| == HEADER_SIZE
  {
    [g.magic, g.seqNum] + Word(g.totalSize) + Word(g.headerSize) + Word(g.numData) + Word(g.crc) + Word(g.reserved)
  }

  function DecodeGlobal(s: seq<byte>): GlobalHeader
    requires HEADER_SIZE <= |s|
  {
    GlobalHeader(s[0], s[1], ReadWord(s, 2), ReadWord(s, 4), ReadWord(s, 6), ReadWord(s, 8), ReadWord(s, 10))
  }

  function EncodeItem(it: Item): seq<byte> {
    EncodeHeader(it.header) + (it.data + [0])
  }

  function EncodeItems(items: seq<Item>): seq<byte> {
    if items == [] then [] else EncodeItems(items[..|items| - 1]) + EncodeItem(items[|items| - 1])
  }

  lemma WordRoundTrip(s: seq<byte>, at: nat, x: u16)
    requires at + 2 <= |s| && s[at] == Word(x)[0] && s[at + 1] == Word(x)[1]
    ensures ReadWord(s, at) == x
  {}

  lemma HeaderRoundTrip(s: seq<byte>, at: nat, h: DataHeader)
    requires at + HEADER_SIZE <= |s| && s[at..at + HEADER_SIZE] == EncodeHeader(h)
    ensures DecodeHeader(s, at) == h
  {
    var e := EncodeHeader(h);
    assert forall k {:trigger e[k]} | 0 <= k < HEADER_SIZE :: s[at + k] == e[k];
    assert e[2] == Word(h.totalSize)[0] && e[3] == Word(h.totalSize)[1];
    assert e[4] == Word(h.headerSize)[0] && e[5] == Word(h.headerSize)[1];
    assert e[10] == Word(h.crc)[0] && e[11] == Word(h.crc)[1];
    assert e[6] == h.attr[0] && e[7] == h.attr[1] && e[8] == h.attr[2] && e[9] == h.attr[3];
    hide Word, ReadWord;
    WordRoundTrip(s, at + 2, h.totalSize);
    WordRoundTrip(s, at + 4, h.headerSize);
    WordRoundTrip(s, at + 10, h.crc);
    assert s[at + 6..at + 10] == h.attr;
  }

  lemma GlobalRoundTrip(s: seq<byte>, g: GlobalHeader)
    requires HEADER_SIZE <= |s| && s[..HEADER_SIZE] == EncodeGlobal(g)
    ensures DecodeGlobal(s) == g
  {
    var e := EncodeGlobal(g);
    assert forall k {:trigger e[k]} | 0 <= k < HEADER_SIZE :: s[k] == e[k];
    assert e[2] == Word(g.totalSize)[0] && e[3] == Word(g.totalSize)[1];
    assert e[4] == Word(g.headerSize)[0] && e[5] == Word(g.headerSize)[1];
    assert e[6] == Word(g.numData)[0] && e[7] == Word(g.numData)[1];
    assert e[8] == Word(g.crc)[0] && e[9] == Word(g.crc)[1];
    assert e[10] == Word(g.reserved)[0] && e[11] == Word(g.reserved)[1];
    hide Word, ReadWord;
    WordRoundTrip(s, 2, g.totalSize);
    WordRoundTrip(s, 4, g.headerSize);
    WordRoundTrip(s, 6, g.numData);
    WordRoundTrip(s, 8, g.crc);
    WordRoundTrip(s, 10, g.reserved);
  }

  /** Byte by byte, words with the low byte first. */
  lemma HeaderBytes(h: DataHeader)
    ensures var e := EncodeHeader(h);
            && |e| == 12 && e[0] == h.magic && e[1] == h.id
            && e[2] as int + 256 * e[3] as int == h.totalSize && e[4] as int + 256 * e[5] as int == h.headerSize
            && e[6..10] == h.attr && e[10] as int + 256 * e[11] as int == h.crc
  {
    assert EncodeHeader(h)[6..10] == h.attr;
  }

  lemma GlobalBytes(g: GlobalHeader)
    ensures var e := EncodeGlobal(g);
            && |e| == 12 && e[0] == g.magic && e[1] == g.seqNum
            && e[2] as int + 256 * e[3] as int == g.totalSize && e[4] as int + 256 * e[5] as int == g.headerSize
            && e[6] as int + 256 * e[7] as int == g.numData && e[8] as int + 256 * e[9] as int == g.crc
            && e[10] as int + 256 * e[11] as int == g.reserved
  {}

  /** Where item k sits among its neighbours. */
  lemma {:induction false} ItemSits(items: seq<Item>, k: nat)
    requires k < |items|
    ensures var start := |EncodeItems(items[..k])|; var stop := |EncodeItems(items[..k + 1])|;
            start + |EncodeItem(items[k])| == stop <= |EncodeItems(items)| &&
            EncodeItems(items)[start..stop] == EncodeItem(items[k])
    decreases |items|
  {
    hide EncodeItem;
    var n := |items| - 1;
    var before := items[..n];
    assert items[..k + 1][..k] == items[..k] && items[..k + 1][k] == items[k];
    if k == n {
      assert items[..k + 1] == items;
    } else {
      assert before[..k] == items[..k] && before[..k + 1] == items[..k + 1];
      ItemSits(before, k);
      var start := |EncodeItems(items[..k])|;
      var stop := |EncodeItems(items[..k + 1])|;
      assert EncodeItems(items)[start..stop] == EncodeItems(before)[start..stop];
    }
  }

  // ----- Headers the library makes ----------------------------------------

  /** The header made for a text: sizes truncated to 16 bits, CRC over the text and its terminating zero. */
  function MakeHeader(id: byte, attr: Attr, data: seq<byte>): DataHeader {
    DataHeader(MAGIC, id, (HEADER_SIZE + |data| + 1) % 0x10000, HEADER_SIZE, attr,
               Crc16.Crc(Crc16.MAGIC, Crc16.MAGIC, data + [0]) as int)
  }

  predicate Made(it: Item) {
    && it.header == MakeHeader(it.header.id, it.header.attr, it.data)
    && 0 < it.header.id < ID_MAX
    && 0 !in it.data
  }

  /** The comparison getDqeLut makes before it copies an item. */
  predicate Sized(it: Item) {
    |it.data| == it.header.totalSize - it.header.headerSize - 1
  }

  /** An item as the library delivers it. */
  predicate Deliverable(it: Item) {
    Made(it) && Sized(it)
  }

  /** It fails exactly for the texts whose size does not fit the 16-bit field. */
  lemma SizedWhenShort(it: Item)
    requires Made(it)
    ensures Sized(it) <==> |EncodeItem(it)| < 0x10000
    ensures Sized(it) ==> it.header.totalSize == |EncodeItem(it)|
  {
    assert |EncodeItem(it)| == HEADER_SIZE + |it.data| + 1;
  }

  /** The header the library makes: magic number 0xDA, sizes with the terminating zero, the CRC of text and zero. */
  lemma MadeHeader(id: byte, attr: Attr, data: seq<byte>)
    ensures var h := MakeHeader(id, attr, data);
            && h.magic == 0xDA && h.id == id && h.headerSize == 12 && h.attr == attr
            && h.totalSize == (13 + |data|) % 65536 && h.crc == Crc16.Crc(0xDA, 0xDA, data + [0]) as int
  {}

  // ----- What getDqeLut delivers ------------------------------------------

  /** A stored table, and the colour transform if one has been set. */
  datatype Request = Request(table: Option<seq<Item>>, transform: Option<Item>)

  predicate IsGamma(it: Item) {
    it.header.id == GAMMA_MATRIX
  }

  predicate HasGamma(table: seq<Item>) {
    exists i :: 0 <= i < |table| && IsGamma(table[i])
  }

  /** The stored table with its gamma-matrix items replaced by the transform. */
  function Replaced(table: seq<Item>, transform: Option<Item>): (r: seq<Item>)
    ensures |r| == |table|
    ensures forall i {:trigger r[i]} | 0 <= i < |r| ::
              r[i] == if transform.Some? && IsGamma(table[i]) then transform.value else table[i]
  {
    seq(|table|, i requires 0 <= i < |table| =>
      if transform.Some? && IsGamma(table[i]) then transform.value else table[i])
  }

  predicate Appends(table: seq<Item>, transform: Option<Item>) {
    transform.Some? && !HasGamma(table)
  }

  /** The items of the parcel: none at all when nothing was asked for, or when an item fails the size comparison. The
      appended transform is not compared. */
  function Delivered(q: Request): Option<seq<Item>> {
    match q
    case Request(Some(table), transform) =>
      if forall i :: 0 <= i < |table| ==> Sized(Replaced(table, transform)[i])
      then Some(Replaced(table, transform) + if Appends(table, transform) then [transform.value] else [])
      else None
    case Request(None, Some(matrix)) => if Sized(matrix) then Some([matrix]) else None
    case Request(None, None) => None
  }

  /** Something is delivered when there is something to deliver, and every text that is put in fits a 16-bit size with
      its header and its zero; gamma matrices (id 6) give way to the transform. */
  lemma DeliveredWhen(q: Request)
    requires q.table.Some? ==> forall i :: 0 <= i < |q.table.value| ==> Made(q.table.value[i])
    requires q.transform.Some? ==> Made(q.transform.value)
    ensures q.table.None? && q.transform.None? ==> Delivered(q).None?
    ensures q.table.None? && q.transform.Some? ==>
              (Delivered(q).Some? <==> |q.transform.value.data| < 65523) &&
              (Delivered(q).Some? ==> Delivered(q).value == [q.transform.value])
    ensures q.table.Some? ==>
              (Delivered(q).Some? <==>
               forall i :: 0 <= i < |q.table.value| ==>
                 |(if q.transform.Some? && q.table.value[i].header.id == 6 then q.transform.value else q.table.value[i]).data| < 65523)
    ensures q.table.Some? && Delivered(q).Some? ==>
              var (table, items) := (q.table.value, Delivered(q).value);
              && |table| <= |items|
              && (forall i :: 0 <= i < |table| ==>
                    items[i] == if q.transform.Some? && table[i].header.id == 6 then q.transform.value else table[i])
              && (if q.transform.Some? && forall i :: 0 <= i < |table| ==> table[i].header.id != 6
                  then |items| == |table| + 1 && items[|table|] == q.transform.value else |items| == |table|)
  {
    hide Made, Sized;
    if q.transform.Some? {
      SizedByLength(q.transform.value);
    }
    if q.table.Some? {
      var items := Replaced(q.table.value, q.transform);
      forall i | 0 <= i < |items|
        ensures Sized(items[i]) <==>
                |(if q.transform.Some? && q.table.value[i].header.id == 6 then q.transform.value else q.table.value[i]).data| < 65523
      {
        SizedByLength(q.table.value[i]);
      }
      assert (forall i :: 0 <= i < |items| ==> Sized(items[i])) <==>
             (forall i :: 0 <= i < |q.table.value| ==>
                |(if q.transform.Some? && q.table.value[i].header.id == 6 then q.transform.value else q.table.value[i]).data| < 65523);
      if HasGamma(q.table.value) {
        var i :| 0 <= i < |q.table.value| && IsGamma(q.table.value[i]);
        assert q.table.value[i].header.id == 6;
      } else {
        forall i | 0 <= i < |q.table.value|
          ensures q.table.value[i].header.id != 6
        {
          assert !IsGamma(q.table.value[i]);
        }
      }
    }
  }

  lemma SizedByLength(it: Item)
    requires Made(it)
    ensures Sized(it) <==> |it.data| < 65523
  {
    hide Crc16.Crc;
  }

  // ----- Bytes written and bytes allotted ---------------------------------

  /** The items before the first that fails the size comparison. */
  function Accepted(items: seq<Item>): (k: nat)
    ensures k <= |items|
    ensures forall i :: 0 <= i < k ==> Sized(items[i])
    ensures k < |items| ==> !Sized(items[k])
  {
    if items == [] || !Sized(items[0]) then 0 else 1 + Accepted(items[1..])
  }

  /** One past the last byte of the parcel that getDqeLut touches, whether or not it succeeds. */
  function Written(q: Request): nat {
    match q
    case Request(Some(table), transform) =>
      var items := Replaced(table, transform);
      var k := Accepted(items);
      HEADER_SIZE + |EncodeItems(items[..k])| +
      if k == |items| && Appends(table, transform) then |EncodeItem(transform.value)| else 0
    case Request(None, Some(matrix)) => if Sized(matrix) then HEADER_SIZE + |EncodeItem(matrix)| else 0
    case Request(None, None) => 0
  }

  function TotalSizes(table: seq<Item>): nat {
    if table == [] then 0 else TotalSizes(table[..|table| - 1]) + table[|table| - 1].header.totalSize
  }

  /** The room counted for a table while the description is parsed. */
  function Room(table: seq<Item>): nat {
    HEADER_SIZE + (HEADER_SIZE + TRANSFORM_MATRIX_DATA_SIZE) + TotalSizes(table)
  }

  function GammaCount(table: seq<Item>): nat {
    if table == [] then 0 else GammaCount(table[..|table| - 1]) + if IsGamma(table[|table| - 1]) then 1 else 0
  }

  lemma {:induction false} NoGammaCountsZero(table: seq<Item>)
    requires !HasGamma(table)
    ensures GammaCount(table) == 0
  {
    if table != [] {
      var before := table[..|table| - 1];
      assert forall i :: 0 <= i < |before| ==> before[i] == table[i];
      assert table[|table| - 1] in table;
      NoGammaCountsZero(before);
    }
  }

  lemma {:induction false} PrefixesAreSmaller(table: seq<Item>, k: nat)
    requires k <= |table|
    ensures TotalSizes(table[..k]) <= TotalSizes(table) && GammaCount(table[..k]) <= GammaCount(table)
  {
    if k == |table| {
      assert table[..k] == table;
    } else {
      PrefixesAreSmaller(table[..|table| - 1], k);
      assert table[..|table| - 1][..k] == table[..k];
    }
  }

  /** The sizes of the table's own gamma matrices. */
  function GammaSizes(table: seq<Item>): nat {
    if table == [] then 0
    else GammaSizes(table[..|table| - 1]) + if IsGamma(table[|table| - 1]) then table[|table| - 1].header.totalSize else 0
  }

  /** How much longer the accepted items are than the sizes in their table's headers: every gamma matrix gives way to the
      transform. */
  function Growth(table: seq<Item>, transform: Option<Item>): int {
    if transform.Some? then GammaCount(table) * |EncodeItem(transform.value)| - GammaSizes(table) else 0
  }

  lemma {:induction false} AcceptedLength(table: seq<Item>, transform: Option<Item>, k: nat)
    requires forall i :: 0 <= i < |table| ==> Made(table[i])
    requires k <= Accepted(Replaced(table, transform))
    ensures |EncodeItems(Replaced(table, transform)[..k])| == TotalSizes(table[..k]) + Growth(table[..k], transform)
  {
    hide Made, EncodeItem;
    if k > 0 {
      var (items, before) := (Replaced(table, transform), table[..k - 1]);
      AcceptedLength(table, transform, k - 1);
      assert items[..k][..k - 1] == items[..k - 1] && table[..k][..k - 1] == before;
      assert Sized(items[k - 1]);
      SizedWhenShort(table[k - 1]);
      if transform.Some? && IsGamma(table[k - 1]) {
        var e := |EncodeItem(transform.value)|;
        assert (GammaCount(before) + 1) * e == GammaCount(before) * e + e;
      }
    }
  }

  /** The items of a table up to the first one that, with the transform put in, fails the size comparison. */
  function Reached(table: seq<Item>, transform: Option<Item>): (r: seq<Item>)
    ensures r <= table
    ensures r == table <==> forall i :: 0 <= i < |table| ==> Sized(Replaced(table, transform)[i])
  {
    table[..Accepted(Replaced(table, transform))]
  }

  /** By how much the parcel of a table misses the room counted for it; negative when there is room to spare. The items
      behind one of the wrong size are not written, and neither is an appended transform. */
  function Excess(table: seq<Item>, transform: Option<Item>): int {
    var reached := Reached(table, transform);
    Growth(reached, transform)
    + (if reached == table && Appends(table, transform) then |EncodeItem(transform.value)| else 0)
    - (HEADER_SIZE + TRANSFORM_MATRIX_DATA_SIZE) - (TotalSizes(table) - TotalSizes(reached))
  }

  /** What is written for a stored table, whether or not getDqeLut succeeds. */
  lemma WrittenIs(table: seq<Item>, transform: Option<Item>)
    requires forall i :: 0 <= i < |table| ==> Made(table[i])
    ensures Written(Request(Some(table), transform)) == Room(table) + Excess(table, transform)
  {
    hide Made, EncodeItem, EncodeItems;
    AcceptedLength(table, transform, Accepted(Replaced(table, transform)));
  }

  /** What is written fits the room counted for the table exactly when the transform, as often as it is put in, takes no
      more than the space set aside for it, the gamma matrices it replaces and the items left out. */
  lemma FitsExactly(table: seq<Item>, transform: Item)
    requires forall i :: 0 <= i < |table| ==> Made(table[i])
    ensures var reached := Reached(table, Some(transform));
            Written(Request(Some(table), Some(transform))) <= Room(table) <==>
            (if reached == table then Max(1, GammaCount(table)) else GammaCount(reached)) * |EncodeItem(transform)| <=
            HEADER_SIZE + TRANSFORM_MATRIX_DATA_SIZE + GammaSizes(reached) + (TotalSizes(table) - TotalSizes(reached))
  {
    hide EncodeItem, EncodeItems, Written, Made, Reached;
    var reached := Reached(table, Some(transform));
    WrittenIs(table, Some(transform));
    if reached == table {
      if HasGamma(table) {
        GammaCounts(table);
      } else {
        NoGammaCountsZero(table);
        assert 0 * |EncodeItem(transform)| == 0;
      }
    }
  }

  lemma {:induction false} GammaCounts(table: seq<Item>)
    requires HasGamma(table)
    ensures GammaCount(table) > 0
  {
    var before := table[..|table| - 1];
    if !IsGamma(table[|table| - 1]) {
      var i :| 0 <= i < |table| && IsGamma(table[i]);
      assert IsGamma(before[i]);
      GammaCounts(before);
    }
  }

  /** So it fits when the transform's text with its zero fits the space set aside and there is at most one gamma matrix,
      also when getDqeLut stops at an item of the wrong size. */
  lemma WrittenFits(q: Request)
    requires q.table.Some? ==> forall i :: 0 <= i < |q.table.value| ==> Made(q.table.value[i])
    requires q.transform.Some? ==> |q.transform.value.data| + 1 <= TRANSFORM_MATRIX_DATA_SIZE
    requires q.table.Some? && q.transform.Some? ==> GammaCount(q.table.value) <= 1
    ensures Written(q) <= Room(if q.table.Some? then q.table.value else [])
  {
    match q
    case Request(Some(table), transform) =>
      var k := Accepted(Replaced(table, transform));
      AcceptedLength(table, transform, k);
      PrefixesAreSmaller(table, k);
      if !HasGamma(table) {
        NoGammaCountsZero(table);
      }
      if transform.Some? {
        GrowthIsSmall(GammaCount(table[..k]), |EncodeItem(transform.value)|, HEADER_SIZE + TRANSFORM_MATRIX_DATA_SIZE);
      }
    case _ =>
  }

  lemma GrowthIsSmall(count: nat, length: nat, space: nat)
    requires count <= 1 && length <= space
    ensures count * length <= count * space
  {}

  /** Without a stored table the room is outgrown exactly by a longer text. */
  lemma LongTransformOutgrows(matrix: Item)
    requires Sized(matrix)
    ensures Written(Request(None, Some(matrix))) <= Room([]) <==> |matrix.data| + 1 <= TRANSFORM_MATRIX_DATA_SIZE
  {}

  lemma TwoGammas(gamma: Item)
    requires Made(gamma) && IsGamma(gamma) && gamma.data == [49]
    ensures GammaCount([gamma, gamma]) == 2 && GammaSizes([gamma, gamma]) == 28
  {
    var table := [gamma, gamma];
    assert table[..1] == [gamma] && [gamma][..0] == [];
    assert GammaCount([gamma]) == 1 && GammaSizes([gamma]) == 14;
  }

  /** A table of two gamma matrices is outgrown by a transform whose text just fits the space set aside. */
  lemma TwoGammasOutgrow(gamma: Item, transform: Item)
    requires Made(gamma) && IsGamma(gamma) && gamma.data == [49]
    requires Made(transform) && IsGamma(transform) && |transform.data| + 1 == TRANSFORM_MATRIX_DATA_SIZE
    ensures Delivered(Request(Some([gamma, gamma]), Some(transform))).Some?
    ensures Written(Request(Some([gamma, gamma]), Some(transform))) > Room([gamma, gamma])
  {
    var table := [gamma, gamma];
    hide Written;
    SizedWhenShort(gamma);
    SizedWhenShort(transform);
    FitsExactly(table, transform);
    assert Reached(table, Some(transform)) == table;
    TwoGammas(gamma);
  }

  /** So is the room when a third item, whose truncated size counts for next to nothing, makes getDqeLut fail behind them. */
  lemma FailedCallOutgrows(gamma: Item, transform: Item, long: Item)
    requires Made(gamma) && IsGamma(gamma) && gamma.data == [49]
    requires Made(transform) && IsGamma(transform) && |transform.data| + 1 == TRANSFORM_MATRIX_DATA_SIZE
    requires Made(long) && !IsGamma(long) && |long.data| == 0x10000 - HEADER_SIZE - 1
    ensures Delivered(Request(Some([gamma, gamma, long]), Some(transform))).None?
    ensures Written(Request(Some([gamma, gamma, long]), Some(transform))) > Room([gamma, gamma, long])
  {
    var table := [gamma, gamma, long];
    hide Written, Crc16.Crc;
    SizedWhenShort(gamma);
    SizedWhenShort(transform);
    SizedWhenShort(long);
    FitsExactly(table, transform);
    AcceptsTwo(Replaced(table, Some(transform)));
    TwoGammas(gamma);
    assert table[..2] == [gamma, gamma];
  }

  lemma AcceptsTwo(items: seq<Item>)
    requires |items| == 3 && Sized(items[0]) && Sized(items[1]) && !Sized(items[2])
    ensures Accepted(items) == 2
  {
    hide Sized;
    assert items[1..][1..][0] == items[2];
    assert Accepted(items[1..][1..]) == 0;
  }

  // ----- The parcel and its readers ---------------------------------------

  /** The complete parcel: both counts of the global header are truncated to 16 bits. */
  function Stamp(g: GlobalHeader, items: seq<Item>): GlobalHeader {
    g.(totalSize := (HEADER_SIZE + |EncodeItems(items)|) % 0x10000, numData := |items| % 0x10000)
  }

  function Parcel(g: GlobalHeader, items: seq<Item>): seq<byte> {
    EncodeGlobal(Stamp(g, items)) + EncodeItems(items)
  }

  lemma StampedHeader(g: GlobalHeader, items: seq<Item>)
    ensures var s := Stamp(g, items);
            && s.totalSize == |Parcel(g, items)| % 65536 && s.numData == |items| % 65536
            && s.magic == g.magic && s.seqNum == g.seqNum && s.headerSize == g.headerSize && s.crc == g.crc
  {}
}
