/** The two walks over a colour parcel: printDqeLut of libdisplaycolor/libdisplaycolor_default.cpp, which goes by the
    item count, and checkFormat of libdisplaycolor/unittest/CS_02_libdisplaycolor.cpp, which goes by the total size. */
module DqeReader {
  import opened Bytes
  import opened DqeParcel

  predicate Holds(parcel: seq<byte>, g: GlobalHeader, items: seq<Item>) {
    Parcel(g, items) <= parcel && forall i :: 0 <= i < |items| ==> Deliverable(items[i])
  }

  /** Where item k starts in the parcel. */
  function Start(items: seq<Item>, k: nat): nat
    requires k <= |items|
  {
    HEADER_SIZE + |EncodeItems(items[..k])|
  }

  /** What stands at an item's place. */
  lemma ItemAt(parcel: seq<byte>, g: GlobalHeader, items: seq<Item>, k: nat)
    requires Holds(parcel, g, items) && k < |items|
    ensures Start(items, k) + HEADER_SIZE + |items[k].data| + 1 == Start(items, k + 1) <= |parcel|
    ensures Start(items, k + 1) <= Start(items, |items|)
    ensures DecodeHeader(parcel, Start(items, k)) == items[k].header
    ensures parcel[Start(items, k) + HEADER_SIZE..Start(items, k + 1)] == items[k].data + [0]
    ensures items[k].header.totalSize == Start(items, k + 1) - Start(items, k)
  {
    var s := Start(items, k);
    var n := |EncodeItem(items[k])|;
    ItemBytes(parcel, g, items, k);
    assert Deliverable(items[k]);
    SizedWhenShort(items[k]);
    hide EncodeHeader, DecodeHeader, EncodeGlobal, Start, Holds, EncodeItems, Made, Sized;
    var it := parcel[s..s + n];
    assert parcel[s..s + HEADER_SIZE] == it[..HEADER_SIZE] == EncodeHeader(items[k].header);
    assert parcel[s + HEADER_SIZE..s + n] == it[HEADER_SIZE..] == items[k].data + [0];
    HeaderRoundTrip(parcel, s, items[k].header);
  }

  lemma ItemBytes(parcel: seq<byte>, g: GlobalHeader, items: seq<Item>, k: nat)
    requires Holds(parcel, g, items) && k < |items|
    ensures Start(items, k) + |EncodeItem(items[k])| == Start(items, k + 1) <= |parcel|
    ensures Start(items, k + 1) <= Start(items, |items|)
    ensures parcel[Start(items, k)..Start(items, k + 1)] == EncodeItem(items[k])
  {
    hide EncodeItem, EncodeGlobal, Deliverable;
    ItemSits(items, k);
    hide EncodeItems;
    var s, t := Start(items, k), Start(items, k + 1);
    var body := EncodeItems(items);
    assert items[..|items|] == items;
    assert Parcel(g, items)[HEADER_SIZE..] == body;
    assert parcel[s..t] == Parcel(g, items)[s..t] == body[s - HEADER_SIZE..t - HEADER_SIZE];
  }

  lemma GlobalAt(parcel: seq<byte>, g: GlobalHeader, items: seq<Item>)
    requires Holds(parcel, g, items)
    ensures HEADER_SIZE <= |parcel| && DecodeGlobal(parcel) == Stamp(g, items)
  {
    hide EncodeItems, EncodeGlobal, DecodeGlobal, Deliverable;
    assert parcel[..HEADER_SIZE] == Parcel(g, items)[..HEADER_SIZE] == EncodeGlobal(Stamp(g, items));
    GlobalRoundTrip(parcel, Stamp(g, items));
  }

  /** The C string at an address. */
  method ReadText(parcel: array<byte>, at: nat, ghost data: seq<byte>) returns (text: seq<byte>)
    requires at + |data| + 1 <= parcel.Length
    requires parcel[at..at + |data| + 1] == data + [0] && 0 !in data
    ensures text == data
  {
    ghost var whole := parcel[at..at + |data| + 1];
    text := [];
    assert forall k {:trigger data[k]} | 0 <= k < |data| :: parcel[at + k] == whole[k] == data[k] && data[k] in data;
    assert parcel[at + |data|] == whole[|data|] == 0;
    while parcel[at + |text|] != 0
      invariant |text| <= |data| && text == data[..|text|]
      decreases |data| - |text|
    {
      assert |text| < |data|;
      assert parcel[at + |text|] == data[|text|];
      text := text + [parcel[at + |text|]];
    }
    assert text == data[..|text|] && data[..|data|] == data;
  }

  /** printDqeLut, returning what it prints: as many items as the count field says. */
  method PrintDqeLut(parcel: array<byte>, ghost g: GlobalHeader, ghost items: seq<Item>) returns (shown: seq<Item>)
    requires Holds(parcel[..], g, items)
    ensures shown == items[..|items| % 0x10000]
  {
    hide EncodeItems, EncodeItem, EncodeGlobal, DecodeGlobal, DecodeHeader, Holds;
    GlobalAt(parcel[..], g, items);
    var header := DecodeGlobal(parcel[..]);
    var d, text := HEADER_SIZE, HEADER_SIZE + HEADER_SIZE;
    shown := [];
    assert items[..0] == [];
    EmptyEncoding();
    for i := 0 to header.numData
      invariant d == Start(items, if i == 0 then 0 else i - 1) && text == d + HEADER_SIZE
      invariant shown == items[..i]
    {
      if i != 0 {
        ItemAt(parcel[..], g, items, i - 1);
        ItemAt(parcel[..], g, items, i);
        var totalSize := DecodeHeader(parcel[..], d).totalSize;
        d := d + totalSize;
        text := text + totalSize;
      } else {
        ItemAt(parcel[..], g, items, 0);
      }
      IsReadable(parcel[..], g, items, i);
      assert parcel[text..text + |items[i].data| + 1] == items[i].data + [0];
      var data := ReadText(parcel, text, items[i].data);
      shown := shown + [Item(DecodeHeader(parcel[..], d), data)];
    }
  }

  lemma EmptyEncoding()
    ensures EncodeItems([]) == []
  {}

  lemma IsReadable(parcel: seq<byte>, g: GlobalHeader, items: seq<Item>, k: nat)
    requires Holds(parcel, g, items) && k < |items|
    ensures 0 !in items[k].data
  {
    assert Deliverable(items[k]);
  }

  // ----- The format check -------------------------------------------------

  lemma {:induction false} StartsGrow(parcel: seq<byte>, g: GlobalHeader, items: seq<Item>, j: nat, k: nat)
    requires Holds(parcel, g, items) && j <= k <= |items|
    ensures Start(items, j) + (k - j) <= Start(items, k) <= |parcel|
    decreases k - j
  {
    hide EncodeItems, EncodeItem, DecodeHeader, Holds;
    if j < k {
      ItemAt(parcel, g, items, j);
      StartsGrow(parcel, g, items, j + 1, k);
    } else {
      WithinParcel(parcel, g, items, k);
    }
  }

  lemma WithinParcel(parcel: seq<byte>, g: GlobalHeader, items: seq<Item>, k: nat)
    requires Holds(parcel, g, items) && k <= |items|
    ensures Start(items, k) <= |parcel|
  {
    hide EncodeItems, EncodeItem, DecodeHeader, Deliverable, EncodeGlobal;
    if k < |items| {
      ItemAt(parcel, g, items, k);
    } else {
      assert items[..k] == items;
    }
  }

  /** The items before item c are as many and as long as the two truncated fields say. */
  predicate AddsUpAt(items: seq<Item>, c: nat) {
    && c <= |items| && c == |items| % 0x10000
    && Start(items, c) == (HEADER_SIZE + |EncodeItems(items)|) % 0x10000
  }

  /** checkFormat, for any number of items. */
  method CheckFormat(parcel: array<byte>, ghost g: GlobalHeader, ghost items: seq<Item>) returns (ok: bool)
    requires Holds(parcel[..], g, items)
    requires g.magic == MAGIC && g.headerSize == HEADER_SIZE
    ensures ok <==> exists c: nat :: AddsUpAt(items, c)
  {
    hide EncodeItems, EncodeItem, EncodeGlobal, DecodeGlobal, DecodeHeader, Holds;
    GlobalAt(parcel[..], g, items);
    ghost var total := HEADER_SIZE + |EncodeItems(items)|;
    assert items[..|items|] == items && items[..0] == [];
    EmptyEncoding();
    assert Start(items, |items|) == total && Start(items, 0) == HEADER_SIZE;
    var header := DecodeGlobal(parcel[..]);
    if header.magic != MAGIC || header.headerSize != HEADER_SIZE || header.totalSize < header.headerSize {
      return false;
    }
    var size, count := header.headerSize, 0;
    while size < header.totalSize
      invariant count <= |items| && size == Start(items, count) <= total
      invariant forall c: nat | c < count :: Start(items, c) < header.totalSize
      decreases |items| - count
    {
      ItemAt(parcel[..], g, items, count);
      IsMade(parcel[..], g, items, count);
      var d := DecodeHeader(parcel[..], size);
      if d.magic != MAGIC || d.headerSize != HEADER_SIZE || d.totalSize < d.headerSize || !(0 < d.id < ID_MAX) {
        assert false;
      }
      size := size + d.totalSize;
      count := count + 1;
    }
    forall c: nat | count < c <= |items|
      ensures Start(items, c) > header.totalSize
    {
      StartsGrow(parcel[..], g, items, count, c);
    }
    ok := header.totalSize == size && header.numData == count;
    assert ok ==> AddsUpAt(items, count);
  }

  /** With fewer than 65536 items it accepts exactly the parcels whose size fits the 16-bit field. */
  lemma SmallParcelsAddUp(parcel: seq<byte>, g: GlobalHeader, items: seq<Item>)
    requires Holds(parcel, g, items) && |items| < 0x10000
    ensures (exists c: nat :: AddsUpAt(items, c)) <==> HEADER_SIZE + |EncodeItems(items)| < 0x10000
  {
    hide EncodeItems, Holds;
    assert items[..|items|] == items;
    if HEADER_SIZE + |EncodeItems(items)| < 0x10000 {
      assert AddsUpAt(items, |items|);
    }
  }

  lemma IsMade(parcel: seq<byte>, g: GlobalHeader, items: seq<Item>, k: nat)
    requires Holds(parcel, g, items) && k < |items|
    ensures Made(items[k])
  {
    assert Deliverable(items[k]);
  }
}
