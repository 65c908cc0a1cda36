/** The colour parcel writer (libdisplaycolor/libdisplaycolor_default.cpp): stored tables, the pending colour mode and
    colour transform, and the parcel made from them. */
module DqeLut {
  import opened Bytes
  import opened Common
  import opened DqeParcel
  import Crc16
  import DqeReader

  type u32 = x: nat | x < 0x1_0000_0000
  type int32 = x: int | -0x8000_0000 <= x < 0x8000_0000

  /** The pending mode and intent when none has been set: -1 as an unsigned number. */
  const UNSET: u32 := 0xFFFF_FFFF

  const NO_ATTR: Attr := [255, 255, 255, 255]

  /** A node of the colour description that carries data. */
  datatype Node = Node(id: byte, attr: Attr, data: seq<byte>)

  predicate Proper(n: Node) {
    0 < n.id < ID_MAX && 0 !in n.data
  }

  function ItemOf(n: Node): Item {
    Item(MakeHeader(n.id, n.attr, n.data), n.data)
  }

  function Items(nodes: seq<Node>): (r: seq<Item>)
    ensures |r| == |nodes|
    ensures forall i {:trigger r[i]} | 0 <= i < |r| :: r[i] == ItemOf(nodes[i])
  {
    seq(|nodes|, i requires 0 <= i < |nodes| => ItemOf(nodes[i]))
  }

  // ----- The text of a colour transform -----------------------------------

  const COMMA: byte := 44
  const MINUS: byte := 45
  const ZERO: byte := 48

  function Digits(n: nat): seq<byte> {
    if n < 10 then [ZERO + n as byte] else Digits(n / 10) + [ZERO + (n % 10) as byte]
  }

  function Decimal(v: int): seq<byte> {
    if v < 0 then [MINUS] + Digits(Abs(v)) else Digits(Abs(v))
  }

  function Abs(v: int): nat {
    if v < 0 then -v else v
  }

  /** "1," and the values, separated by commas. */
  function TransformText(values: seq<int>): seq<byte> {
    if values == [] then [ZERO + 1]
    else TransformText(values[..|values| - 1]) + [COMMA] + Decimal(values[|values| - 1])
  }

  function Pow10(k: nat): nat {
    if k == 0 then 1 else 10 * Pow10(k - 1)
  }

  // ----- Reading the text back --------------------------------------------

  predicate IsDigit(c: byte) { 48 <= c <= 57 }

  /** Decimal digits, without leading zeros. */
  predicate IsNatural(s: seq<byte>) {
    s != [] && (forall c | c in s :: IsDigit(c)) && (s[0] == 48 ==> |s| == 1)
  }

  /** Every digit counts for its place. */
  function Value(s: seq<byte>): int {
    if s == [] then 0 else (s[0] as int - 48) * Pow10(|s| - 1) + Value(s[1..])
  }

  /** A number in decimal, possibly negative; there is no negative zero. */
  predicate IsNumber(s: seq<byte>) {
    if s != [] && s[0] == 45 then IsNatural(s[1..]) && Value(s[1..]) > 0 else IsNatural(s)
  }

  function Number(s: seq<byte>): int {
    if s != [] && s[0] == 45 then -Value(s[1..]) else Value(s)
  }

  /** The parts of a text between commas. */
  function Split(s: seq<byte>): (parts: seq<seq<byte>>)
    ensures parts != []
  {
    if s == [] then [[]]
    else
      var (parts, c) := (Split(s[..|s| - 1]), s[|s| - 1]);
      if c == 44 then parts + [[]] else parts[..|parts| - 1] + [parts[|parts| - 1] + [c]]
  }

  /** The text is these numbers, separated by commas. */
  predicate Reads(text: seq<byte>, numbers: seq<int>) {
    var parts := Split(text);
    |parts| == |numbers| && forall i | 0 <= i < |parts| :: IsNumber(parts[i]) && Number(parts[i]) == numbers[i]
  }

  lemma {:induction false} ValueAppend(s: seq<byte>, c: byte)
    ensures Value(s + [c]) == 10 * Value(s) + (c as int - 48)
  {
    if s == [] {
      assert Value([c]) == (c as int - 48) * Pow10(0) + Value([c][1..]);
    } else {
      assert (s + [c])[1..] == s[1..] + [c];
      ValueAppend(s[1..], c);
      TenTimes(s[0] as int - 48, Pow10(|s| - 1));
    }
  }

  lemma TenTimes(d: int, p: int)
    ensures d * (10 * p) == 10 * (d * p)
  {}

  lemma {:induction false} DigitsAreNatural(n: nat)
    ensures IsNatural(Digits(n)) && Value(Digits(n)) == n && (n > 0 ==> Digits(n)[0] != 48)
  {
    if n < 10 {
      ValueAppend([], ZERO + n as byte);
      assert [] + [ZERO + n as byte] == Digits(n);
    } else {
      DigitsAreNatural(n / 10);
      ValueAppend(Digits(n / 10), ZERO + (n % 10) as byte);
    }
  }

  lemma DecimalIsNumber(v: int)
    ensures IsNumber(Decimal(v)) && Number(Decimal(v)) == v && 44 !in Decimal(v)
  {
    hide Digits, Value;
    DigitsAreNatural(Abs(v));
    var digits := Digits(Abs(v));
    assert digits[0] in digits && IsDigit(digits[0]);
    assert !IsDigit(44) && 44 !in digits;
    assert ([MINUS] + digits)[1..] == digits;
  }

  /** A part without commas follows the last comma. */
  lemma {:induction false} SplitAppend(s: seq<byte>, part: seq<byte>)
    requires 44 !in part
    ensures Split(s + [44] + part) == Split(s) + [part]
  {
    var text := s + [44] + part;
    if part == [] {
      assert text[..|text| - 1] == s;
    } else {
      var before := part[..|part| - 1];
      SplitAppend(s, before);
      assert text[..|text| - 1] == s + [44] + before && part == before + [part[|part| - 1]];
    }
  }

  /** Read back, a colour transform is 1 and its values. */
  lemma TextReadsBack(values: seq<int>)
    ensures Reads(TransformText(values), [1] + values)
    ensures var parts := Split(TransformText(values));
            && |parts| == 1 + |values| && Number(parts[0]) == 1
            && forall i | 0 <= i < |values| :: Number(parts[i + 1]) == values[i]
  {
    hide TransformText, Split, Number, IsNumber;
    TextReads(values);
    var parts := Split(TransformText(values));
    forall i | 0 <= i < |values|
      ensures Number(parts[i + 1]) == values[i]
    {
      assert ([1] + values)[i + 1] == values[i];
    }
  }

  lemma {:induction false} TextReads(values: seq<int>)
    ensures Reads(TransformText(values), [1] + values)
  {
    hide IsNumber, Number, Decimal;
    if values == [] {
      OneReads();
    } else {
      var n := |values| - 1;
      TextReads(values[..n]);
      DecimalIsNumber(values[n]);
      SplitAppend(TransformText(values[..n]), Decimal(values[n]));
    }
  }

  lemma OneReads()
    ensures Reads([49], [1])
  {
    var one: seq<byte> := [49];
    var none: seq<byte> := [];
    assert one[..0] == none && none + one == one;
    assert Split(none) == [none];
    assert Split(one) == [none][..0] + [none + one] == [one];
    ValueAppend(none, 49);
  }

  lemma {:induction false} DigitsAreShort(n: nat, k: nat)
    requires k > 0 && n < Pow10(k)
    ensures |Digits(n)| <= k && 0 !in Digits(n)
  {
    if n >= 10 {
      DigitsAreShort(n / 10, k - 1);
    }
  }

  lemma Powers()
    ensures Pow10(4) == 10_000 && Pow10(5) == 100_000 && Pow10(10) == 10_000_000_000
  {
    assert Pow10(2) == 100;
    assert Pow10(4) == 10_000;
    assert Pow10(6) == 1_000_000;
    assert Pow10(8) == 100_000_000;
  }

  /** The room a text of n values needs when each value takes at most k characters. */
  lemma {:induction false} TextLength(values: seq<int>, k: nat)
    requires forall i :: 0 <= i < |values| ==> |Decimal(values[i])| <= k && 0 !in Decimal(values[i])
    ensures |TransformText(values)| <= 1 + (k + 1) * |values| && 0 !in TransformText(values)
  {
    hide Decimal;
    if values != [] {
      var n := |values| - 1;
      TextLength(values[..n], k);
      assert (k + 1) * |values| == (k + 1) * n + (k + 1);
    }
  }

  /** Any 16 values of 32 bits give a text whose size fits the header; if each is between -9999 and 99999, as the
      entries of an ordinary transform are in units of 1/65536, it also fits the room set aside. */
  lemma TransformTextFits(values: seq<int32>)
    requires |values| == 16
    ensures |TransformText(values)| <= 193 && 0 !in TransformText(values)
    ensures (forall i :: 0 <= i < 16 ==> -9_999 <= values[i] <= 99_999) ==>
              |TransformText(values)| + 1 <= TRANSFORM_MATRIX_DATA_SIZE
  {
    hide TransformText;
    Powers();
    hide Pow10;
    forall i | 0 <= i < 16 ensures |Decimal(values[i])| <= 11 && 0 !in Decimal(values[i]) {
      DigitsAreShort(Abs(values[i]), 10);
    }
    TextLength(values, 11);
    if forall i :: 0 <= i < 16 ==> -9_999 <= values[i] <= 99_999 {
      forall i | 0 <= i < 16 ensures |Decimal(values[i])| <= 5 && 0 !in Decimal(values[i]) {
        DigitsAreShort(Abs(values[i]), if values[i] < 0 then 4 else 5);
      }
      TextLength(values, 5);
    }
  }

  lemma {:induction false} TextLengthExactly(v: int, n: nat)
    ensures |TransformText(seq(n, i => v))| == 1 + (|Decimal(v)| + 1) * n
  {
    hide Decimal;
    if n > 0 {
      var values := seq(n, i => v);
      assert values[..n - 1] == seq(n - 1, i => v);
      TextLengthExactly(v, n - 1);
      assert (|Decimal(v)| + 1) * n == (|Decimal(v)| + 1) * (n - 1) + (|Decimal(v)| + 1);
    }
  }

  /** A matrix of sixteen twos (131072 in units of 1/65536) takes 114 bytes with its zero, two more than set aside, and
      its parcel is longer than the smallest size getDqeLutSize returns. */
  lemma TwosOutgrowTheirRoom(it: Item)
    requires it == ItemOf(Node(GAMMA_MATRIX, NO_ATTR, TransformText(seq(16, i => 131072))))
    ensures |it.data| + 1 == 114
    ensures Written(Request(None, Some(it))) > Room([])
  {
    hide TransformText, Decimal, Crc16.Crc;
    TextLengthExactly(131072, 16);
    TwoHasSixDigits();
    LongTransformOutgrows(it);
  }

  lemma TwoHasSixDigits()
    ensures |Decimal(131072)| == 6
  {
    assert |Digits(131)| == 3;
    assert |Digits(13107)| == 5;
  }

  // ----- Writing ----------------------------------------------------------

  /** memcpy(parcel + at, bytes, |bytes|). */
  method PutBytes(parcel: array<byte>, at: nat, bytes: seq<byte>)
    requires at + |bytes| <= parcel.Length
    modifies parcel
    ensures parcel[..at + |bytes|] == old(parcel[..at]) + bytes
    ensures parcel[at + |bytes|..] == old(parcel[at + |bytes|..])
  {
    for k := 0 to |bytes|
      invariant forall j {:trigger parcel[j]} | 0 <= j < parcel.Length ::
                  parcel[j] == if at <= j < at + k then bytes[j - at] else old(parcel[j])
    {
      parcel[at + k] := bytes[k];
    }
  }

  /** Header, text and terminating zero at an offset; returns the offset behind them. */
  method PutItem(parcel: array<byte>, at: nat, it: Item) returns (next: nat)
    requires at + |EncodeItem(it)| <= parcel.Length
    modifies parcel
    ensures next == at + |EncodeItem(it)|
    ensures parcel[..next] == old(parcel[..at]) + EncodeItem(it)
    ensures parcel[next..] == old(parcel[next..])
  {
    hide EncodeHeader;
    next := at;
    PutBytes(parcel, next, EncodeHeader(it.header));
    next := next + HEADER_SIZE;
    ghost var middle := parcel[..];
    assert middle[next..] == old(parcel[next..]);
    PutBytes(parcel, next, it.data + [0]);
    next := next + |it.data| + 1;
    assert parcel[next..] == middle[at + HEADER_SIZE..][|it.data| + 1..];
  }

  // ----- Stored tables ----------------------------------------------------

  type Key = (u32, u32)
  type Texts = map<Key, seq<seq<byte>>>
  type Headers = map<Key, seq<DataHeader>>

  function Lookup<T>(m: map<Key, seq<T>>, key: Key): seq<T> {
    if key in m then m[key] else []
  }

  predicate Aligned(lut: Texts, headers: Headers, key: Key) {
    |Lookup(lut, key)| == |Lookup(headers, key)|
  }

  /** Headers and texts side by side. */
  function Zip(headers: seq<DataHeader>, texts: seq<seq<byte>>): (table: seq<Item>)
    requires |headers| == |texts|
    ensures |table| == |texts|
    ensures forall i {:trigger table[i]} | 0 <= i < |table| :: table[i] == Item(headers[i], texts[i])
  {
    seq(|texts|, i requires 0 <= i < |texts| && |headers| == |texts| => Item(headers[i], texts[i]))
  }

  /** The stored table of a mode and intent, empty if there is none. */
  function TableAt(lut: Texts, headers: Headers, key: Key): seq<Item>
    requires Aligned(lut, headers, key)
  {
    Zip(Lookup(headers, key), Lookup(lut, key))
  }

  predicate AllMade(table: seq<Item>) {
    forall i :: 0 <= i < |table| ==> Made(table[i])
  }

  predicate TableFits(lut: Texts, headers: Headers, key: Key, size: nat) {
    Aligned(lut, headers, key) && AllMade(TableAt(lut, headers, key)) && Room(TableAt(lut, headers, key)) <= size
  }

  ghost predicate TablesValid(lut: Texts, headers: Headers, size: nat) {
    && lut.Keys == headers.Keys
    && Room([]) <= size
    && forall key :: key in lut ==> TableFits(lut, headers, key, size)
  }

  /** The maps with one more table. */
  predicate Added(lut: Texts, headers: Headers, lut': Texts, headers': Headers, key: Key, table: seq<Item>) {
    && key in lut' && key in headers' && |lut'[key]| == |headers'[key]| && Zip(headers'[key], lut'[key]) == table
    && lut' == lut[key := lut'[key]] && headers' == headers[key := headers'[key]]
  }

  /** Adding one table under a new key. */
  lemma TableAdded(lut: Texts, headers: Headers, size: nat, key: Key, texts: seq<seq<byte>>, heads: seq<DataHeader>)
    requires TablesValid(lut, headers, size) && key !in lut
    requires |texts| == |heads| && AllMade(Zip(heads, texts))
    ensures TablesValid(lut[key := texts], headers[key := heads], Max(size, Room(Zip(heads, texts))))
    ensures Added(lut, headers, lut[key := texts], headers[key := heads], key, Zip(heads, texts))
  {
    hide AllMade, Room, Zip;
    var lut', headers' := lut[key := texts], headers[key := heads];
    forall k | k in lut'
      ensures TableFits(lut', headers', k, Max(size, Room(Zip(heads, texts))))
    {
      if k != key {
        assert TableFits(lut, headers, k, size);
      }
    }
  }

  lemma RoomGrows(lut: Texts, headers: Headers, size: nat, larger: nat)
    requires TablesValid(lut, headers, size) && size <= larger
    ensures TablesValid(lut, headers, larger)
  {
    forall k | k in lut ensures TableFits(lut, headers, k, larger) {
      assert TableFits(lut, headers, k, size);
    }
  }

  predicate IsTransform(it: Item) {
    Deliverable(it) && IsGamma(it)
  }

  lemma SameKeys(lut: Texts, headers: Headers, size: nat)
    requires TablesValid(lut, headers, size)
    ensures lut.Keys == headers.Keys
  {}

  lemma PartsOf(nodes: seq<Node>, texts: seq<seq<byte>>, headers: seq<DataHeader>)
    requires |texts| == |headers| && Zip(headers, texts) == Items(nodes)
    ensures |texts| == |nodes|
    ensures forall i :: 0 <= i < |nodes| ==>
              texts[i] == nodes[i].data && headers[i] == MakeHeader(nodes[i].id, nodes[i].attr, nodes[i].data)
  {
    hide MakeHeader;
    forall i | 0 <= i < |nodes|
      ensures texts[i] == nodes[i].data && headers[i] == MakeHeader(nodes[i].id, nodes[i].attr, nodes[i].data)
    {
      assert Zip(headers, texts)[i] == Items(nodes)[i];
    }
  }

  lemma TableIsMade(nodes: seq<Node>)
    requires forall i :: 0 <= i < |nodes| ==> Proper(nodes[i])
    ensures AllMade(Items(nodes))
  {
    forall i | 0 <= i < |nodes| ensures Made(Items(nodes)[i]) {
      assert Proper(nodes[i]);
    }
  }

  class DisplayColor {
    var gHeaderBase: GlobalHeader
    var lutMap: Texts
    var headerMap: Headers
    var dqeLutSize: nat
    var cfMatrix: seq<byte>
    var cfMatrixHeader: DataHeader
    var initCompleted: bool
    var mode: u32
    var intent: u32
    var matrixEn: bool
    const crcTable: array<bv16>

    /** The object before the description is parsed: the CRC table filled, the header constants set, nothing stored and
        nothing asked for. */
    constructor ()
      ensures Valid() && fresh(crcTable) && !initCompleted
      ensures mode == UNSET && intent == UNSET && !matrixEn && cfMatrix == [] && lutMap == map[] && headerMap == map[]
      ensures gHeaderBase == GlobalHeader(MAGIC, 0, 0, HEADER_SIZE, 0, 0xDA, 0) && dqeLutSize == Room([])
    {
      gHeaderBase := GlobalHeader(MAGIC, 0, 0, HEADER_SIZE, 0, 0xDA, 0);
      lutMap, headerMap := map[], map[];
      dqeLutSize := TRANSFORM_MATRIX_DATA_SIZE + HEADER_SIZE + HEADER_SIZE;
      cfMatrix := [];
      cfMatrixHeader := DataHeader(MAGIC, GAMMA_MATRIX, 0, HEADER_SIZE, NO_ATTR, 0);
      initCompleted := false;
      mode, intent, matrixEn := UNSET, UNSET, false;
      crcTable := new bv16[256];
      new;
      Crc16.GenCrc16Table(crcTable, Crc16.MAGIC);
    }

    /** The last step of the initialisation. */
    method CompleteInit()
      modifies this`initCompleted
      ensures initCompleted && (old(Valid()) ==> Valid())
    {
      hide Crc16.IsTable, TablesValid, IsTransform;
      initCompleted := true;
    }

    /** What the next getDqeLut is asked for. */
    function Pending(): Request
      reads this
      requires mode != UNSET ==> Aligned(lutMap, headerMap, (mode, intent))
    {
      Request(if mode != UNSET then Some(TableAt(lutMap, headerMap, (mode, intent))) else None,
              if matrixEn then Some(Item(cfMatrixHeader, cfMatrix)) else None)
    }

    ghost predicate Valid()
      reads this, crcTable
    {
      && Crc16.IsTable(crcTable[..], Crc16.MAGIC)
      && gHeaderBase.magic == MAGIC && gHeaderBase.headerSize == HEADER_SIZE
      && TablesValid(lutMap, headerMap, dqeLutSize)
      && (matrixEn ==> IsTransform(Item(cfMatrixHeader, cfMatrix)))
    }

    // ----- Parsing the description ----------------------------------------

    method GetCrc(data: seq<byte>) returns (crc: u16)
      requires Crc16.IsTable(crcTable[..], Crc16.MAGIC)
      ensures crc == Crc16.Crc(Crc16.MAGIC, Crc16.MAGIC, data + [0]) as int
    {
      hide Crc16.IsTable, Crc16.Crc;
      ghost var text := data + [0];
      var buf := new byte[|data| + 1](i requires 0 <= i < |data| + 1 => if i < |data| then data[i] else 0);
      assert buf[..|data| + 1] == text;
      var c := Crc16.GetCrc16(crcTable, Crc16.MAGIC, buf, |data| + 1);
      crc := c as int;
    }

    /** The table made from one mode of the description: a header for every node, and the room it may need. A table
        already stored for the same mode and intent stays. */
    method AddTable(key: Key, nodes: seq<Node>)
      requires Valid() && forall i :: 0 <= i < |nodes| ==> Proper(nodes[i])
      modifies this`lutMap, this`headerMap, this`dqeLutSize
      ensures Valid()
      ensures key in old(lutMap) ==> lutMap == old(lutMap) && headerMap == old(headerMap)
      ensures key !in old(lutMap) ==> Added(old(lutMap), old(headerMap), lutMap, headerMap, key, Items(nodes))
      ensures key !in old(lutMap) ==>
                && key in lutMap && key in headerMap && |lutMap[key]| == |headerMap[key]| == |nodes|
                && (forall i :: 0 <= i < |nodes| ==>
                      && lutMap[key][i] == nodes[i].data
                      && headerMap[key][i] == MakeHeader(nodes[i].id, nodes[i].attr, nodes[i].data))
                && lutMap == old(lutMap)[key := lutMap[key]] && headerMap == old(headerMap)[key := headerMap[key]]
      ensures dqeLutSize == Max(old(dqeLutSize), Room(Items(nodes)))
    {
      hide Crc16.Crc, Crc16.IsTable, TablesValid, Added, IsTransform, Items, Zip, Room, AllMade;
      var texts, headers, tmpSize := MakeTable(nodes);
      TableIsMade(nodes);
      PartsOf(nodes, texts, headers);
      SameKeys(lutMap, headerMap, dqeLutSize);
      if key in lutMap {
        RoomGrows(lutMap, headerMap, dqeLutSize, Max(dqeLutSize, tmpSize));
      } else {
        TableAdded(lutMap, headerMap, dqeLutSize, key, texts, headers);
      }
      if key !in lutMap {
        lutMap := lutMap[key := texts];
      }
      if key !in headerMap {
        headerMap := headerMap[key := headers];
      }
      if tmpSize > dqeLutSize {
        dqeLutSize := tmpSize;
      }
    }

    method MakeTable(nodes: seq<Node>) returns (texts: seq<seq<byte>>, headers: seq<DataHeader>, tmpSize: nat)
      requires Crc16.IsTable(crcTable[..], Crc16.MAGIC)
      ensures |texts| == |headers| && Zip(headers, texts) == Items(nodes)
      ensures tmpSize == Room(Items(nodes))
    {
      hide Crc16.Crc, Crc16.IsTable;
      texts, headers := [], [];
      var tfMatrixSize := HEADER_SIZE + TRANSFORM_MATRIX_DATA_SIZE;
      tmpSize := HEADER_SIZE + tfMatrixSize;
      for i := 0 to |nodes|
        invariant |texts| == |headers| == i
        invariant forall j {:trigger texts[j]} {:trigger headers[j]} | 0 <= j < i ::
                    Item(headers[j], texts[j]) == ItemOf(nodes[j])
        invariant tmpSize == Room(Items(nodes[..i]))
      {
        var n := nodes[i];
        var crc := GetCrc(n.data);
        var header := DataHeader(MAGIC, n.id, (HEADER_SIZE + |n.data| + 1) % 0x10000, HEADER_SIZE, n.attr, crc);
        assert header == ItemOf(n).header;
        ghost var items := Items(nodes[..i + 1]);
        assert items[..i] == Items(nodes[..i]);
        tmpSize := tmpSize + header.totalSize;
        headers := headers + [header];
        texts := texts + [n.data];
      }
      assert nodes[..|nodes|] == nodes;
    }

    // ----- Requests -------------------------------------------------------

    method SetColorModeWithRenderIntent(m: u32, i: u32)
      modifies this`mode, this`intent
      ensures mode == m && intent == i
      ensures old(Valid()) ==> Valid()
    {
      mode, intent := m, i;
    }

    /** values are the sixteen matrix entries in units of 1/65536, rounded. */
    method SetColorTransform(values: seq<int32>)
      requires Valid() && |values| == 16
      modifies this`cfMatrix, this`cfMatrixHeader, this`matrixEn
      ensures Valid() && matrixEn
      ensures Reads(cfMatrix, [1] + values)
      ensures var parts := Split(cfMatrix);
              |parts| == 17 && Number(parts[0]) == 1 && forall i | 0 <= i < 16 :: Number(parts[i + 1]) == values[i]
      ensures cfMatrixHeader == MakeHeader(6, [255, 255, 255, 255], cfMatrix)
      ensures Item(cfMatrixHeader, cfMatrix) == ItemOf(Node(GAMMA_MATRIX, NO_ATTR, TransformText(values)))
    {
      hide Crc16.Crc, Crc16.IsTable, TablesValid, TransformText, Reads, Split, Number;
      var entry := BuildText(values);
      TransformTextFits(values);
      TextReadsBack(values);
      var crc := GetCrc(entry);
      cfMatrix := entry;
      cfMatrixHeader :=
        DataHeader(MAGIC, GAMMA_MATRIX, (HEADER_SIZE + |cfMatrix| + 1) % 0x10000, HEADER_SIZE, NO_ATTR, crc);
      matrixEn := true;
    }

    method BuildText(values: seq<int32>) returns (entry: seq<byte>)
      requires |values| == 16
      ensures entry == TransformText(values)
    {
      hide Decimal;
      entry := [ZERO + 1, COMMA];
      assert values[..0] == [] && values[..16] == values;
      for i := 0 to 16
        invariant entry == TransformText(values[..i]) + if i == 16 then [] else [COMMA]
      {
        assert values[..i + 1][..i] == values[..i];
        entry := entry + Decimal(values[i]);
        if i != 15 {
          entry := entry + [COMMA];
        }
      }
    }

    /** What getDqeLut writes, whether or not it succeeds, fits the caller's buffer of getDqeLutSize() bytes exactly when
        its excess over the room of its table is no more than the room of the largest table has to spare; for a transform
        alone, when its text fits the space set aside or that larger room. */
    lemma PendingFitsExactly()
      requires Valid() && Ready()
      ensures mode != UNSET ==>
                (Written(Pending()) <= dqeLutSize <==>
                 Excess(TableAt(lutMap, headerMap, (mode, intent)), Pending().transform) <=
                 dqeLutSize - Room(TableAt(lutMap, headerMap, (mode, intent))))
      ensures mode == UNSET ==>
                (Written(Pending()) <= dqeLutSize <==>
                 (matrixEn && Sized(Item(cfMatrixHeader, cfMatrix)) ==>
                    |cfMatrix| + 1 - TRANSFORM_MATRIX_DATA_SIZE <= dqeLutSize - Room([])))
    {
      hide Made, Room, Written, Sized, Crc16.IsTable, Excess, TableAt;
      if mode != UNSET {
        StoredTableIsMade();
        WrittenIs(TableAt(lutMap, headerMap, (mode, intent)), Pending().transform);
      } else {
        MatrixAlone();
      }
    }

    lemma StoredTableIsMade()
      requires Valid() && Aligned(lutMap, headerMap, (mode, intent))
      ensures AllMade(TableAt(lutMap, headerMap, (mode, intent)))
      ensures Room(TableAt(lutMap, headerMap, (mode, intent))) <= dqeLutSize
    {
      hide Made, Room, Crc16.IsTable;
      var key := (mode, intent);
      LookedUp(lutMap, headerMap, dqeLutSize, key);
      assert TableFits(lutMap[key := Lookup(lutMap, key)], headerMap[key := Lookup(headerMap, key)], key, dqeLutSize);
    }

    lemma MatrixAlone()
      requires mode == UNSET
      ensures Written(Pending()) == if matrixEn && Sized(Item(cfMatrixHeader, cfMatrix))
                                    then Room([]) + (|cfMatrix| + 1 - TRANSFORM_MATRIX_DATA_SIZE) else 0
    {}

    /** The caller's buffer holds whatever is written, also by a getDqeLut that fails, when the transform's text fits the
        space set aside and the stored table has at most one gamma matrix. */
    lemma PendingFits()
      requires Valid() && Ready()
      requires matrixEn ==> |cfMatrix| + 1 <= TRANSFORM_MATRIX_DATA_SIZE
      requires mode != UNSET && matrixEn ==> GammaCount(TableAt(lutMap, headerMap, (mode, intent))) <= 1
      ensures Written(Pending()) <= dqeLutSize
    {
      hide Made, Room, Written, Sized, Crc16.IsTable;
      if mode != UNSET {
        StoredTableIsMade();
      }
      WrittenFits(Pending());
    }

    // ----- The parcel -----------------------------------------------------

    predicate Ready()
      reads this
    {
      initCompleted && (mode != UNSET ==> Aligned(lutMap, headerMap, (mode, intent)))
    }

    /** The items the next getDqeLut delivers, if it succeeds. */
    function Answer(): Option<seq<Item>>
      reads this
    {
      if Ready() then Delivered(Pending()) else None
    }

    /** What is asked for: the table of the mode and intent, if they have been set, and the transform, if there is one;
        nothing before the initialisation is complete, and nothing when texts and headers do not go together. */
    lemma AnswerIs()
      ensures mode != 0xFFFF_FFFF && |Lookup(lutMap, (mode, intent))| != |Lookup(headerMap, (mode, intent))| ==> Answer() == None
      ensures !initCompleted ==> Answer() == None
      ensures initCompleted && mode == 0xFFFF_FFFF ==>
                Answer() == Delivered(Request(None, if matrixEn then Some(Item(cfMatrixHeader, cfMatrix)) else None))
      ensures var (texts, headers) := (if (mode, intent) in lutMap then lutMap[(mode, intent)] else [],
                                       if (mode, intent) in headerMap then headerMap[(mode, intent)] else []);
              initCompleted && mode != 0xFFFF_FFFF && |texts| == |headers| ==>
                Answer() == Delivered(Request(Some(Zip(headers, texts)),
                                              if matrixEn then Some(Item(cfMatrixHeader, cfMatrix)) else None))
    {}

    /** Copies the items of a table, with its gamma matrices replaced by the transform, up to the first whose text does
        not have the size its header says. */
    method CopyTable(parcel: array<byte>, texts: seq<seq<byte>>, headers: seq<DataHeader>, ghost transform: Option<Item>)
      returns (ok: bool, offset: nat, hasMatrix: bool)
      requires |texts| == |headers|
      requires transform == if matrixEn then Some(Item(cfMatrixHeader, cfMatrix)) else None
      requires var items := Replaced(Zip(headers, texts), transform);
               HEADER_SIZE + |EncodeItems(items[..Accepted(items)])| <= parcel.Length
      modifies parcel
      ensures var items := Replaced(Zip(headers, texts), transform);
              && ok == (Accepted(items) == |items|)
              && (ok ==> Copied(old(parcel[..]), parcel[..], items) && offset == HEADER_SIZE + |EncodeItems(items)|)
      ensures ok ==> hasMatrix == (transform.Some? && HasGamma(Zip(headers, texts)))
    {
      hide Accepted, Made, EncodeItem, EncodeItems, Copied, HasGamma, Replaced;
      ghost var table := Zip(headers, texts);
      ghost var items := Replaced(table, transform);
      ok, offset, hasMatrix := true, HEADER_SIZE, false;
      Begin(parcel[..], items, table);
      for i := 0 to |texts|
        invariant i <= Accepted(items)
        invariant offset == HEADER_SIZE + |EncodeItems(items[..i])|
        invariant Copied(old(parcel[..]), parcel[..], items[..i])
        invariant hasMatrix == (transform.Some? && HasGamma(table[..i]))
      {
        HasGammaStep(table, i);
        assert items[i] == if matrixEn && IsGamma(table[i]) then Item(cfMatrixHeader, cfMatrix) else table[i];
        if headers[i].id == GAMMA_MATRIX && matrixEn {
          hasMatrix := true;
          if |cfMatrix| != cfMatrixHeader.totalSize - cfMatrixHeader.headerSize - 1 {
            ok := false;
            return;
          }
          RoomForNext(items, i);
          offset := CopyItem(parcel, offset, Item(cfMatrixHeader, cfMatrix), old(parcel[..]), items, i);
        } else {
          if |texts[i]| != headers[i].totalSize - headers[i].headerSize - 1 {
            ok := false;
            return;
          }
          RoomForNext(items, i);
          offset := CopyItem(parcel, offset, Item(headers[i], texts[i]), old(parcel[..]), items, i);
        }
      }
      assert table[..|table|] == table && items[..|items|] == items;
    }

    method CopyItem(parcel: array<byte>, at: nat, it: Item, ghost before: seq<byte>, ghost items: seq<Item>, ghost i: nat)
      returns (next: nat)
      requires i < |items| && it == items[i]
      requires at == HEADER_SIZE + |EncodeItems(items[..i])|
      requires HEADER_SIZE + |EncodeItems(items[..i + 1])| <= parcel.Length
      requires Copied(before, parcel[..], items[..i])
      modifies parcel
      ensures next == HEADER_SIZE + |EncodeItems(items[..i + 1])|
      ensures Copied(before, parcel[..], items[..i + 1])
    {
      hide EncodeItem;
      assert items[..i + 1][..i] == items[..i];
      ghost var was := parcel[..];
      next := PutItem(parcel, at, it);
      Extend(before, was, parcel[..], items[..i], it);
      assert items[..i + 1] == items[..i] + [it];
    }

    /** Fills in the global header and copies it to the front. */
    method PutGlobal(parcel: array<byte>, total: nat, count: nat, ghost before: seq<byte>, ghost items: seq<Item>)
      requires total == HEADER_SIZE + |EncodeItems(items)| && count == |items|
      requires Copied(before, parcel[..], items)
      modifies this`gHeaderBase, parcel
      ensures gHeaderBase == Stamp(old(gHeaderBase), items)
      ensures IsParcel(before, parcel[..], old(gHeaderBase), items)
    {
      hide EncodeItems, EncodeGlobal;
      ghost var was := parcel[..];
      gHeaderBase := gHeaderBase.(totalSize := total % 0x10000, numData := count % 0x10000);
      PutBytes(parcel, 0, EncodeGlobal(gHeaderBase));
      assert parcel[..HEADER_SIZE] == EncodeGlobal(gHeaderBase);
      Finish(before, was, parcel[..], old(gHeaderBase), items);
    }

    method ClearDqeLut()
      modifies this`gHeaderBase, this`mode, this`intent, this`matrixEn, this`cfMatrix
      ensures gHeaderBase == Next(old(gHeaderBase))
      ensures mode == UNSET && intent == UNSET && !matrixEn && cfMatrix == []
    {
      gHeaderBase := gHeaderBase.(seqNum := ((gHeaderBase.seqNum as int + 1) % 256) as byte);
      mode := UNSET;
      intent := UNSET;
      matrixEn := false;
      cfMatrix := [];
    }

    /** The part of getDqeLut for a stored table: items, appended transform, global header. */
    method DeliverTable(parcel: array<byte>, texts: seq<seq<byte>>, headers: seq<DataHeader>, ghost q: Request)
      returns (ok: bool)
      requires |texts| == |headers|
      requires q == Request(Some(Zip(headers, texts)), if matrixEn then Some(Item(cfMatrixHeader, cfMatrix)) else None)
      requires Written(q) <= parcel.Length
      modifies this`gHeaderBase, parcel
      ensures ok == Delivered(q).Some?
      ensures ok ==> gHeaderBase == Stamp(old(gHeaderBase), Delivered(q).value)
      ensures ok ==> IsParcel(old(parcel[..]), parcel[..], old(gHeaderBase), Delivered(q).value)
      ensures !ok ==> gHeaderBase == old(gHeaderBase)
    {
      hide Accepted, EncodeItem, EncodeItems, Copied, IsParcel, HasGamma, Replaced, Delivered, Stamp;
      ghost var table := Zip(headers, texts);
      ghost var items := Replaced(table, q.transform);
      TableAnswer(table, q.transform);
      var offset, hasMatrix;
      ok, offset, hasMatrix := CopyTable(parcel, texts, headers, q.transform);
      if !ok {
        return;
      }
      var count := |texts|;
      if matrixEn && !hasMatrix {
        var matrix := Item(cfMatrixHeader, cfMatrix);
        AppendOne(items, matrix);
        assert (items + [matrix])[..|items|] == items && (items + [matrix])[..|items| + 1] == items + [matrix];
        offset := CopyItem(parcel, offset, matrix, old(parcel[..]), items + [matrix], |items|);
        count := count + 1;
        PutGlobal(parcel, offset, count, old(parcel[..]), items + [matrix]);
      } else {
        PutGlobal(parcel, offset, count, old(parcel[..]), items);
      }
    }

    /** The part of getDqeLut for a transform alone. */
    method DeliverMatrix(parcel: array<byte>) returns (ok: bool)
      requires Written(Request(None, Some(Item(cfMatrixHeader, cfMatrix)))) <= parcel.Length
      modifies this`gHeaderBase, parcel
      ensures ok == Sized(Item(cfMatrixHeader, cfMatrix))
      ensures ok ==> gHeaderBase == Stamp(old(gHeaderBase), [Item(cfMatrixHeader, cfMatrix)])
      ensures ok ==> IsParcel(old(parcel[..]), parcel[..], old(gHeaderBase), [Item(cfMatrixHeader, cfMatrix)])
      ensures !ok ==> gHeaderBase == old(gHeaderBase)
    {
      hide EncodeItem, EncodeItems, Copied, IsParcel, Stamp;
      if |cfMatrix| != cfMatrixHeader.totalSize - cfMatrixHeader.headerSize - 1 {
        return false;
      }
      var matrix := Item(cfMatrixHeader, cfMatrix);
      Begin(parcel[..], [matrix], []);
      AppendOne([], matrix);
      assert [] + [matrix] == [matrix] && [matrix][..0] == [] && [matrix][..1] == [matrix];
      var offset := CopyItem(parcel, HEADER_SIZE, matrix, old(parcel[..]), [matrix], 0);
      PutGlobal(parcel, offset, 1, old(parcel[..]), [matrix]);
      return true;
    }

    /** getDqeLut: delivers the pending request and forgets it, or leaves it pending. */
    method GetDqeLut(parcel: array<byte>) returns (r: int)
      requires (parcel as object) != crcTable
      requires Ready() ==> Written(Pending()) <= parcel.Length
      modifies this, parcel
      ensures r == if old(Answer()).Some? then 0 else -1
      ensures r == 0 ==> IsParcel(old(parcel[..]), parcel[..], old(gHeaderBase), old(Answer()).value)
      ensures r == 0 ==> gHeaderBase == Next(Stamp(old(gHeaderBase), old(Answer()).value))
                         && gHeaderBase.seqNum as int == (old(gHeaderBase.seqNum) as int + 1) % 256
      ensures r == 0 ==> mode == UNSET && intent == UNSET && !matrixEn && cfMatrix == []
      ensures r != 0 ==> gHeaderBase == old(gHeaderBase) && mode == old(mode) && intent == old(intent)
                         && matrixEn == old(matrixEn) && cfMatrix == old(cfMatrix)
      ensures cfMatrixHeader == old(cfMatrixHeader) && dqeLutSize == old(dqeLutSize)
      ensures initCompleted == old(initCompleted)
      ensures SameTables(old(lutMap), old(headerMap), lutMap, headerMap)
      ensures forall k :: k in old(lutMap) ==> k in lutMap && lutMap[k] == old(lutMap)[k]
      ensures forall k :: k in old(headerMap) ==> k in headerMap && headerMap[k] == old(headerMap)[k]
      ensures old(Valid()) ==> Valid()
    {
      hide IsTransform, Sized, Crc16.IsTable, IsParcel, Written, SameTables, TablesValid, Zip, Made, EncodeItems;
      UnsetMode();
      SameTablesItself(lutMap, headerMap);
      if !initCompleted {
        return -1;
      }
      if mode != UNSET {
        LookUpTable((mode, intent));
        var texts, headers := lutMap[(mode, intent)], headerMap[(mode, intent)];
        if |texts| != |headers| {
          return -1;
        }
        assert old(Pending()).table.value == Zip(headers, texts);
        var ok := DeliverTable(parcel, texts, headers, old(Pending()));
        if !ok {
          return -1;
        }
      } else if matrixEn {
        var ok := DeliverMatrix(parcel);
        if !ok {
          return -1;
        }
      } else {
        return -1;
      }
      ClearDqeLut();
      return 0;
    }

    /** The map's index operator stores an empty entry for a missing key. */
    method LookUpTable(key: Key)
      modifies this`lutMap, this`headerMap
      ensures key in lutMap && lutMap[key] == Lookup(old(lutMap), key)
      ensures key in headerMap && headerMap[key] == Lookup(old(headerMap), key)
      ensures SameTables(old(lutMap), old(headerMap), lutMap, headerMap)
      ensures forall k :: k in old(lutMap) ==> k in lutMap && lutMap[k] == old(lutMap)[k]
      ensures forall k :: k in old(headerMap) ==> k in headerMap && headerMap[k] == old(headerMap)[k]
      ensures TablesValid(old(lutMap), old(headerMap), dqeLutSize) ==> TablesValid(lutMap, headerMap, dqeLutSize)
    {
      hide TableFits;
      lutMap := lutMap[key := Lookup(lutMap, key)];
      headerMap := headerMap[key := Lookup(headerMap, key)];
      if TablesValid(old(lutMap), old(headerMap), dqeLutSize) {
        LookedUp(old(lutMap), old(headerMap), dqeLutSize, key);
      }
    }
  }

  predicate SameTables(lut: Texts, headers: Headers, lut': Texts, headers': Headers) {
    && lut.Keys <= lut'.Keys && headers.Keys <= headers'.Keys
    && (forall k :: k in lut' ==> Lookup(lut, k) == lut'[k])
    && (forall k :: k in headers' ==> Lookup(headers, k) == headers'[k])
  }

  lemma SameTablesItself(lut: Texts, headers: Headers)
    ensures SameTables(lut, headers, lut, headers)
  {}

  lemma UnsetMode()
    ensures UNSET == 0xFFFF_FFFF
  {}

  lemma LookedUp(lut: Texts, headers: Headers, size: nat, key: Key)
    requires TablesValid(lut, headers, size)
    ensures TablesValid(lut[key := Lookup(lut, key)], headers[key := Lookup(headers, key)], size)
  {
    hide Room, AllMade;
    var lut', headers' := lut[key := Lookup(lut, key)], headers[key := Lookup(headers, key)];
    forall k | k in lut'
      ensures TableFits(lut', headers', k, size)
    {
      if k in lut {
        assert TableFits(lut, headers, k, size);
      } else {
        assert TableAt(lut', headers', k) == [];
        EmptyTableFits();
      }
    }
  }

  lemma EmptyTableFits()
    ensures AllMade([])
  {}

  /** Delivery of a stored table in terms of the accepted prefix. */
  lemma TableAnswer(table: seq<Item>, transform: Option<Item>)
    ensures var items := Replaced(table, transform);
            Delivered(Request(Some(table), transform)) ==
            if Accepted(items) < |items| then None
            else Some(if Appends(table, transform) then items + [transform.value] else items)
    ensures Replaced(table, transform)[..|table|] == Replaced(table, transform)
  {
    hide EncodeItem, EncodeItems, Sized, Replaced;
    var items := Replaced(table, transform);
    assert items + [] == items;
  }

  lemma AppendOne(items: seq<Item>, it: Item)
    ensures EncodeItems(items + [it]) == EncodeItems(items) + EncodeItem(it)
    ensures EncodeItems([]) == []
  {
    assert (items + [it])[..|items|] == items;
  }

  lemma Finish(before: seq<byte>, was: seq<byte>, now: seq<byte>, g: GlobalHeader, items: seq<Item>)
    requires Copied(before, was, items) && |now| == |was|
    requires now[..HEADER_SIZE] == EncodeGlobal(Stamp(g, items)) && now[HEADER_SIZE..] == was[HEADER_SIZE..]
    ensures IsParcel(before, now, g, items)
  {
    hide EncodeItems, EncodeGlobal;
    var n := HEADER_SIZE + |EncodeItems(items)|;
    assert now == now[..HEADER_SIZE] + was[HEADER_SIZE..n] + was[n..];
  }

  predicate IsParcel(before: seq<byte>, after: seq<byte>, g: GlobalHeader, items: seq<Item>) {
    var p := Parcel(g, items);
    |p| <= |before| && after == p + before[|p|..]
  }

  /** Both readers understand every parcel that getDqeLut delivers, and the delivered items are the stored table with
      its gamma matrices replaced, and the transform appended when there were none. */
  lemma ParcelIsReadable(q: Request, before: seq<byte>, after: seq<byte>, g: GlobalHeader)
    requires q.table.Some? ==> AllMade(q.table.value)
    requires q.transform.Some? ==> IsTransform(q.transform.value)
    requires Delivered(q).Some? && IsParcel(before, after, g, Delivered(q).value)
    ensures DqeReader.Holds(after, g, Delivered(q).value)
    ensures |after| == |before| && forall k :: |Parcel(g, Delivered(q).value)| <= k < |after| ==> after[k] == before[k]
    ensures q.transform.Some? ==> forall i :: 0 <= i < |Delivered(q).value| && IsGamma(Delivered(q).value[i]) ==>
                                                Delivered(q).value[i] == q.transform.value
    ensures q.transform.Some? ==> HasGamma(Delivered(q).value)
    ensures q.table.Some? ==>
              var n := |q.table.value|;
              n <= |Delivered(q).value| && forall i :: 0 <= i < n && !IsGamma(q.table.value[i]) ==>
                                                         Delivered(q).value[i] == q.table.value[i]
  {
    hide Made, Sized, EncodeItems, EncodeItem, EncodeGlobal;
    var items := Delivered(q).value;
    assert Parcel(g, items) <= after;
    if q.table.Some? && q.transform.Some? {
      TransformIsThere(q.table.value, q.transform.value, items);
    } else if q.transform.Some? {
      assert IsGamma(items[0]);
    }
  }

  lemma TransformIsThere(table: seq<Item>, matrix: Item, items: seq<Item>)
    requires IsGamma(matrix) && Delivered(Request(Some(table), Some(matrix))) == Some(items)
    ensures HasGamma(items)
  {
    hide Sized;
    if HasGamma(table) {
      var i :| 0 <= i < |table| && IsGamma(table[i]);
      assert IsGamma(items[i]);
    } else {
      assert IsGamma(items[|table|]);
    }
  }

  function Next(g: GlobalHeader): GlobalHeader {
    g.(seqNum := ((g.seqNum as int + 1) % 256) as byte)
  }

  /** The bytes behind the global header after copying items. */
  predicate Copied(before: seq<byte>, after: seq<byte>, items: seq<Item>) {
    var n := HEADER_SIZE + |EncodeItems(items)|;
    && n <= |after| == |before|
    && after[..HEADER_SIZE] == before[..HEADER_SIZE]
    && after[HEADER_SIZE..n] == EncodeItems(items)
    && after[n..] == before[n..]
  }

  lemma Extend(before: seq<byte>, was: seq<byte>, now: seq<byte>, items: seq<Item>, it: Item)
    requires Copied(before, was, items)
    requires |now| == |was| && HEADER_SIZE + |EncodeItems(items)| + |EncodeItem(it)| <= |was|
    requires var at := HEADER_SIZE + |EncodeItems(items)|; var next := at + |EncodeItem(it)|;
             now[..next] == was[..at] + EncodeItem(it) && now[next..] == was[next..]
    ensures Copied(before, now, items + [it])
  {
    hide EncodeItem;
    var at := HEADER_SIZE + |EncodeItems(items)|;
    var next := at + |EncodeItem(it)|;
    assert (items + [it])[..|items|] == items;
    assert EncodeItems(items + [it]) == EncodeItems(items) + EncodeItem(it);
    assert now[HEADER_SIZE..next] == now[..next][HEADER_SIZE..] == was[HEADER_SIZE..at] + EncodeItem(it);
    assert now[..HEADER_SIZE] == now[..next][..HEADER_SIZE] == was[..at][..HEADER_SIZE];
    assert was[next..] == was[at..][next - at..] == before[at..][next - at..] == before[next..];
  }

  lemma Begin(bytes: seq<byte>, items: seq<Item>, table: seq<Item>)
    requires HEADER_SIZE <= |bytes|
    ensures EncodeItems(items[..0]) == [] && Copied(bytes, bytes, items[..0])
    ensures !HasGamma(table[..0])
  {}

  lemma HasGammaStep(table: seq<Item>, i: nat)
    requires i < |table|
    ensures HasGamma(table[..i + 1]) <==> HasGamma(table[..i]) || IsGamma(table[i])
  {
    assert table[..i + 1][i] == table[i];
    assert forall j :: 0 <= j < i ==> table[..i + 1][j] == table[..i][j];
  }

  /** A correctly sized item at the end of an accepted prefix is accepted too, and has its place in the buffer. */
  lemma RoomForNext(items: seq<Item>, i: nat)
    requires i < |items| && i <= Accepted(items) && Sized(items[i])
    ensures i + 1 <= Accepted(items)
    ensures |EncodeItems(items[..i + 1])| <= |EncodeItems(items[..Accepted(items)])|
  {
    hide EncodeItem, Sized;
    var k := Accepted(items);
    EncodingGrows(items, i + 1, k);
  }

  lemma {:induction false} EncodingGrows(items: seq<Item>, j: nat, k: nat)
    requires j <= k <= |items|
    ensures |EncodeItems(items[..j])| <= |EncodeItems(items[..k])|
  {
    if j < k {
      EncodingGrows(items, j, k - 1);
      assert items[..k][..k - 1] == items[..k - 1];
    }
  }
}
