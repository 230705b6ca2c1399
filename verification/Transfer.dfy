/** The transfer codec: table entries or record ranges flattened into a keys blob, a values blob and a table of lengths. */
module Transfer {
  import opened Base
  import opened Source

  /** A key and its value; only records may have a null value. */
  type Item = (Bytes, Option<Bytes>)

  /** `lens` alternates key and value lengths; `sentinel` stands for null. */
  datatype Packed = Packed(keys: Bytes, vals: Bytes, lens: seq<nat>)

  const TABLE_LIMIT: nat := 0x1_0000_0000
  const NULL_VALUE: nat := 0xffff_ffff

  function ValueBytes(v: Option<Bytes>): Bytes {
    if v.Some? then v.value else []
  }

  function ValueLength(sentinel: nat, v: Option<Bytes>): nat {
    if v.Some? then |v.value| else sentinel
  }

  /** Lengths below the sentinel can be told apart from it and from each other. */
  predicate Representable(sentinel: nat, item: Item) {
    |item.0| < sentinel && (item.1.Some? ==> |item.1.value| < sentinel)
  }

  function Keys(items: seq<Item>): Bytes {
    if items == [] then [] else Keys(items[..|items| - 1]) + items[|items| - 1].0
  }

  function Vals(items: seq<Item>): Bytes {
    if items == [] then [] else Vals(items[..|items| - 1]) + ValueBytes(items[|items| - 1].1)
  }

  function Lens(sentinel: nat, items: seq<Item>): (r: seq<nat>)
    ensures |r| == 2 * |items|
  {
    if items == [] then []
    else
      var last := items[|items| - 1];
      Lens(sentinel, items[..|items| - 1]) + [|last.0|, ValueLength(sentinel, last.1)]
  }

  function Flattened(sentinel: nat, items: seq<Item>): Packed {
    Packed(Keys(items), Vals(items), Lens(sentinel, items))
  }

  // ---- reading back ----

  /** Offset of entry `e` in the keys blob. */
  function KeyOffset(lens: seq<nat>, e: nat): nat
    requires 2 * e <= |lens|
  {
    if e == 0 then 0 else KeyOffset(lens, e - 1) + lens[2 * e - 2]
  }

  function ValueOffset(sentinel: nat, lens: seq<nat>, e: nat): nat
    requires 2 * e <= |lens|
  {
    if e == 0 then 0 else ValueOffset(sentinel, lens, e - 1) + if lens[2 * e - 1] == sentinel then 0 else lens[2 * e - 1]
  }

  /** `subarray` clamps to the blob. */
  function Sub(blob: Bytes, off: nat, len: nat): Bytes {
    blob[Min(off, |blob|)..Min(off + len, |blob|)]
  }

  function ItemAt(sentinel: nat, p: Packed, e: nat): Item
    requires 2 * e + 2 <= |p.lens|
  {
    (Sub(p.keys, KeyOffset(p.lens, e), p.lens[2 * e]),
     if p.lens[2 * e + 1] == sentinel then None else Some(Sub(p.vals, ValueOffset(sentinel, p.lens, e), p.lens[2 * e + 1])))
  }

  function ItemsOf(sentinel: nat, p: Packed, n: nat): (r: seq<Item>)
    requires 2 * n <= |p.lens|
    ensures |r| == n
  {
    if n == 0 then [] else ItemsOf(sentinel, p, n - 1) + [ItemAt(sentinel, p, n - 1)]
  }

  /** Lengths come in pairs and use up both blobs exactly. */
  predicate Exact(sentinel: nat, p: Packed) {
    && |p.lens| % 2 == 0
    && KeyOffset(p.lens, |p.lens| / 2) == |p.keys| && ValueOffset(sentinel, p.lens, |p.lens| / 2) == |p.vals|
  }

  function Unflattened(sentinel: nat, p: Packed): Option<seq<Item>> {
    if Exact(sentinel, p) then Some(ItemsOf(sentinel, p, |p.lens| / 2)) else None
  }

  // ---- packing, then unpacking ----

  lemma {:induction false} OffsetsOfFlat(sentinel: nat, items: seq<Item>, e: nat)
    requires e <= |items| && forall x :: x in items ==> Representable(sentinel, x)
    ensures var lens := Lens(sentinel, items);
      && KeyOffset(lens, e) == |Keys(items[..e])| && ValueOffset(sentinel, lens, e) == |Vals(items[..e])|
      && (e < |items| ==> lens[2 * e] == |items[e].0| && lens[2 * e + 1] == ValueLength(sentinel, items[e].1))
  {
    LensAt(sentinel, items, e);
    if e > 0 {
      OffsetsOfFlat(sentinel, items, e - 1);
      assert items[..e][..e - 1] == items[..e - 1];
      assert items[e - 1] in items;
    }
  }

  lemma {:induction false} LensAt(sentinel: nat, items: seq<Item>, e: nat)
    ensures e < |items| ==>
      Lens(sentinel, items)[2 * e] == |items[e].0| && Lens(sentinel, items)[2 * e + 1] == ValueLength(sentinel, items[e].1)
  {
    if e + 1 < |items| {
      LensAt(sentinel, items[..|items| - 1], e);
    }
  }

  /** A blob holds each piece at its offset. */
  lemma {:induction false} PieceAt(items: seq<Item>, e: nat)
    requires e < |items|
    ensures var k, v := |Keys(items[..e])|, |Vals(items[..e])|;
      && k + |items[e].0| <= |Keys(items)| && Keys(items)[k..k + |items[e].0|] == items[e].0
      && v + |ValueBytes(items[e].1)| <= |Vals(items)| && Vals(items)[v..v + |ValueBytes(items[e].1)|] == ValueBytes(items[e].1)
  {
    var n := |items| - 1;
    if e < n {
      PieceAt(items[..n], e);
      assert items[..n][..e] == items[..e];
    } else {
      assert items[..e] == items[..n];
    }
  }

  lemma ItemOfFlat(sentinel: nat, items: seq<Item>, e: nat)
    requires e < |items| && forall x :: x in items ==> Representable(sentinel, x)
    ensures ItemAt(sentinel, Flattened(sentinel, items), e) == items[e]
  {
    hide Keys, Vals, Lens, KeyOffset, ValueOffset;
    OffsetsOfFlat(sentinel, items, e);
    PieceAt(items, e);
    assert items[e] in items;
  }

  lemma {:induction false} ItemsOfFlat(sentinel: nat, items: seq<Item>, e: nat)
    requires e <= |items| && forall x :: x in items ==> Representable(sentinel, x)
    ensures ItemsOf(sentinel, Flattened(sentinel, items), e) == items[..e]
  {
    hide ItemAt, Flattened, Representable;
    assert |Flattened(sentinel, items).lens| == 2 * |items| by {
      FlatLength(sentinel, items);
    }
    if e > 0 {
      ItemsOfFlat(sentinel, items, e - 1);
      ItemOfFlat(sentinel, items, e - 1);
    }
  }

  lemma FlatLength(sentinel: nat, items: seq<Item>)
    ensures |Flattened(sentinel, items).lens| == 2 * |items|
  {
  }

  /** Unpacking a packed list gives it back, null values and empty ones apart. */
  lemma RoundTrip(sentinel: nat, items: seq<Item>)
    requires forall x :: x in items ==> Representable(sentinel, x)
    ensures Unflattened(sentinel, Flattened(sentinel, items)) == Some(items)
  {
    hide Keys, Vals, Lens, KeyOffset, ValueOffset, ItemsOf, Representable;
    OffsetsOfFlat(sentinel, items, |items|);
    ItemsOfFlat(sentinel, items, |items|);
    FlatLength(sentinel, items);
    assert items[..|items|] == items;
  }

  // ---- unpacking, then packing ----

  lemma {:induction false} OffsetsGrow(sentinel: nat, lens: seq<nat>, e: nat, n: nat)
    requires e <= n && 2 * n <= |lens|
    ensures KeyOffset(lens, e) <= KeyOffset(lens, n) && ValueOffset(sentinel, lens, e) <= ValueOffset(sentinel, lens, n)
    decreases n
  {
    if e < n {
      OffsetsGrow(sentinel, lens, e, n - 1);
    }
  }

  /** With exact lengths no piece is clamped. */
  lemma {:induction false} FlatOfItems(sentinel: nat, p: Packed, e: nat)
    requires Exact(sentinel, p) && 2 * e <= |p.lens|
    ensures KeyOffset(p.lens, e) <= |p.keys| && Keys(ItemsOf(sentinel, p, e)) == p.keys[..KeyOffset(p.lens, e)]
    ensures ValueOffset(sentinel, p.lens, e) <= |p.vals| && Vals(ItemsOf(sentinel, p, e)) == p.vals[..ValueOffset(sentinel, p.lens, e)]
    ensures Lens(sentinel, ItemsOf(sentinel, p, e)) == p.lens[..2 * e]
  {
    hide Exact, ItemAt, Keys, Vals, Lens, KeyOffset, ValueOffset, ValueLength, ValueBytes;
    WithinBlobs(sentinel, p, e);
    if e > 0 {
      var item := ItemAt(sentinel, p, e - 1);
      FlatOfItems(sentinel, p, e - 1);
      FlatStep(sentinel, ItemsOf(sentinel, p, e - 1), item);
      UnclampedKey(sentinel, p, e - 1);
      UnclampedValue(sentinel, p, e - 1);
      Joined(p.lens, 2 * e - 2, 2 * e);
    } else {
      NoOffsets(sentinel, p.lens);
      assert p.lens[..0] == [] && p.keys[..0] == [] && p.vals[..0] == [];
    }
  }

  lemma NoOffsets(sentinel: nat, lens: seq<nat>)
    ensures KeyOffset(lens, 0) == 0 && ValueOffset(sentinel, lens, 0) == 0
    ensures Keys([]) == [] && Vals([]) == [] && Lens(sentinel, []) == []
  {
  }

  lemma Joined<T>(s: seq<T>, i: nat, j: nat)
    requires i <= j <= |s|
    ensures s[..j] == s[..i] + s[i..j]
  {
  }

  lemma WithinBlobs(sentinel: nat, p: Packed, e: nat)
    requires Exact(sentinel, p) && 2 * e <= |p.lens|
    ensures KeyOffset(p.lens, e) <= |p.keys| && ValueOffset(sentinel, p.lens, e) <= |p.vals|
  {
    OffsetsGrow(sentinel, p.lens, e, |p.lens| / 2);
  }

  lemma OffsetStep(sentinel: nat, lens: seq<nat>, e: nat)
    requires 2 * e + 2 <= |lens|
    ensures KeyOffset(lens, e + 1) == KeyOffset(lens, e) + lens[2 * e]
    ensures ValueOffset(sentinel, lens, e + 1) == ValueOffset(sentinel, lens,
                                                              e) + if lens[2 * e + 1] == sentinel then 0 else lens[2 * e + 1]
  {
  }

  lemma UnclampedKey(sentinel: nat, p: Packed, e: nat)
    requires Exact(sentinel, p) && 2 * e + 2 <= |p.lens|
    ensures KeyOffset(p.lens, e) <= KeyOffset(p.lens, e + 1) <= |p.keys|
    ensures p.keys[..KeyOffset(p.lens, e + 1)] == p.keys[..KeyOffset(p.lens, e)] + ItemAt(sentinel, p, e).0
    ensures |ItemAt(sentinel, p, e).0| == p.lens[2 * e]
  {
    WithinBlobs(sentinel, p, e + 1);
    OffsetStep(sentinel, p.lens, e);
    hide KeyOffset, ValueOffset, Exact;
    Joined(p.keys, KeyOffset(p.lens, e), KeyOffset(p.lens, e + 1));
  }

  lemma UnclampedValue(sentinel: nat, p: Packed, e: nat)
    requires Exact(sentinel, p) && 2 * e + 2 <= |p.lens|
    ensures ValueOffset(sentinel, p.lens, e) <= ValueOffset(sentinel, p.lens, e + 1) <= |p.vals|
    ensures p.vals[..ValueOffset(sentinel, p.lens, e + 1)] == p.vals[..ValueOffset(sentinel, p.lens,
                                                                                   e)] + ValueBytes(ItemAt(sentinel, p, e).1)
    ensures ValueLength(sentinel, ItemAt(sentinel, p, e).1) == p.lens[2 * e + 1]
  {
    WithinBlobs(sentinel, p, e + 1);
    OffsetStep(sentinel, p.lens, e);
    hide KeyOffset, ValueOffset, Exact;
    Joined(p.vals, ValueOffset(sentinel, p.lens, e), ValueOffset(sentinel, p.lens, e + 1));
  }

  lemma FlatStep(sentinel: nat, items: seq<Item>, item: Item)
    ensures Keys(items + [item]) == Keys(items) + item.0
    ensures Vals(items + [item]) == Vals(items) + ValueBytes(item.1)
    ensures Lens(sentinel, items + [item]) == Lens(sentinel, items) + [|item.0|, ValueLength(sentinel, item.1)]
  {
    TakeAppend(items, item);
  }

  /** Main result: unpacking succeeds exactly when the lengths use up both blobs, and then packing the answer gives the very same
      buffers: nothing is clamped, dropped or invented. */
  lemma UnpackIsInverse(sentinel: nat, p: Packed)
    ensures Unflattened(sentinel, p).Some? <==> Exact(sentinel, p)
    ensures Unflattened(sentinel, p).Some? ==> Flattened(sentinel, Unflattened(sentinel, p).value) == p
  {
    if Exact(sentinel, p) {
      FlatOfItems(sentinel, p, |p.lens| / 2);
      assert p.lens[..2 * (|p.lens| / 2)] == p.lens && p.keys[..|p.keys|] == p.keys && p.vals[..|p.vals|] == p.vals;
    }
  }

  // ---- the loops ----

  /** The lengths pass: check, record and sum. */
  method Measure(sentinel: nat, items: seq<Item>) returns (ok: bool, lens: seq<nat>, keyBytes: nat, valBytes: nat)
    ensures ok <==> forall x :: x in items ==> Representable(sentinel, x)
    ensures ok ==> lens == Lens(sentinel, items) && keyBytes == |Keys(items)| && valBytes == |Vals(items)|
  {
    var table := new nat[2 * |items|];
    ok, lens, keyBytes, valBytes := true, [], 0, 0;
    for e := 0 to |items|
      invariant forall x :: x in items[..e] ==> Representable(sentinel, x)
      invariant table[..2 * e] == Lens(sentinel, items[..e])
      invariant keyBytes == |Keys(items[..e])| && valBytes == |Vals(items[..e])|
    {
      var (k, v) := items[e];
      if |k| >= sentinel || (v.Some? && |v.value| >= sentinel) {
        assert items[e] in items && !Representable(sentinel, items[e]);
        return false, [], 0, 0;
      }
      assert items[..e + 1][..e] == items[..e];
      ghost var before := table[..2 * e];
      table[2 * e] := |k|;
      table[2 * e + 1] := if v.None? then sentinel else |v.value|;
      assert table[..2 * e + 2] == before + [table[2 * e], table[2 * e + 1]];
      keyBytes := keyBytes + |k|;
      valBytes := valBytes + if v.Some? then |v.value| else 0;
    }
    assert items[..|items|] == items;
    lens := table[..];
  }

  /** Pack, or refuse a length that cannot be told apart. */
  method Pack(sentinel: nat, items: seq<Item>) returns (r: Option<Packed>)
    ensures r.Some? <==> forall x :: x in items ==> Representable(sentinel, x)
    ensures r.Some? ==> r.value == Flattened(sentinel, items)
  {
    hide Representable, Keys, Vals, Lens;
    var ok, lens, keyBytes, valBytes := Measure(sentinel, items);
    if !ok {
      return None;
    }
    var keys, vals := CopyBlobs(items, keyBytes, valBytes);
    r := Some(Packed(keys, vals, lens));
  }

  /** The copying pass, each piece at its running offset. */
  method CopyBlobs(items: seq<Item>, keyBytes: nat, valBytes: nat) returns (keyBlob: Bytes, valBlob: Bytes)
    requires keyBytes == |Keys(items)| && valBytes == |Vals(items)|
    ensures keyBlob == Keys(items) && valBlob == Vals(items)
  {
    hide Keys, Vals;
    var keys, vals := new Byte[keyBytes], new Byte[valBytes];
    var kOff: nat, vOff: nat := 0, 0;
    NoBytes();
    for e := 0 to |items|
      invariant kOff == |Keys(items[..e])| <= keyBytes && keys[..kOff] == Keys(items[..e])
      invariant vOff == |Vals(items[..e])| <= valBytes && vals[..vOff] == Vals(items[..e])
    {
      var (k, v) := items[e];
      PieceFits(items, e);
      Write(keys, kOff, k);
      kOff := kOff + |k|;
      if v.Some? {
        Write(vals, vOff, v.value);
        vOff := vOff + |v.value|;
      }
    }
    assert items[..|items|] == items;
    keyBlob, valBlob := keys[..kOff], vals[..vOff];
  }

  lemma NoBytes()
    ensures Keys([]) == [] && Vals([]) == []
  {
  }

  lemma PieceFits(items: seq<Item>, e: nat)
    requires e < |items|
    ensures Keys(items[..e + 1]) == Keys(items[..e]) + items[e].0 && |Keys(items[..e + 1])| <= |Keys(items)|
    ensures Vals(items[..e + 1]) == Vals(items[..e]) + ValueBytes(items[e].1) && |Vals(items[..e + 1])| <= |Vals(items)|
  {
    PieceAt(items, e);
    assert items[..e + 1][..e] == items[..e];
  }

  /** `blob.set(bytes, off)`. */
  method Write(blob: array<Byte>, off: nat, bytes: Bytes)
    requires off + |bytes| <= blob.Length
    modifies blob
    ensures blob[..off + |bytes|] == old(blob[..off]) + bytes
  {
    forall i | 0 <= i < |bytes| {
      blob[off + i] := bytes[i];
    }
  }

  /** Unpack: views into the blobs, or an error for odd or mismatched lengths. */
  method Unpack(sentinel: nat, p: Packed) returns (r: Option<seq<Item>>)
    ensures r == Unflattened(sentinel, p)
  {
    if |p.lens| % 2 != 0 {
      return None;
    }
    var n := |p.lens| / 2;
    var out: seq<Item> := [];
    var kOff, vOff := 0, 0;
    for e := 0 to n
      invariant out == ItemsOf(sentinel, p, e)
      invariant kOff == KeyOffset(p.lens, e) && vOff == ValueOffset(sentinel, p.lens, e)
    {
      var kLen, vLen := p.lens[2 * e], p.lens[2 * e + 1];
      var key := Sub(p.keys, kOff, kLen);
      kOff := kOff + kLen;
      var value := None;
      if vLen != sentinel {
        value := Some(Sub(p.vals, vOff, vLen));
        vOff := vOff + vLen;
      }
      out := out + [(key, value)];
    }
    if kOff != |p.keys| || vOff != |p.vals| {
      return None;
    }
    r := Some(out);
  }

  // ---- tables and records ----

  /** A record as the extract transport sees it: sequence and type are not shipped. */
  datatype TransferRecord = TransferRecord(seqNo: nat, rtype: nat, key: Bytes, value: Option<Bytes>)

  function ItemsOfRecords(records: seq<TransferRecord>): seq<Item> {
    seq(|records|, i requires 0 <= i < |records| => (records[i].key, records[i].value))
  }

  function RecordsOfItems(items: seq<Item>): seq<TransferRecord> {
    seq(|items|, i requires 0 <= i < |items| => TransferRecord(0, 0, items[i].0, items[i].1))
  }

  method PackRecords(records: seq<TransferRecord>) returns (r: Option<Packed>)
    ensures r.Some? <==> forall x :: x in records ==> |x.key| < 0xffff_ffff && (x.value.Some? ==> |x.value.value| < 0xffff_ffff)
    ensures r.Some? ==> r.value == Flattened(NULL_VALUE, ItemsOfRecords(records)) && |r.value.lens| == 2 * |records|
    ensures r.Some? ==> forall i :: 0 <= i < |records| ==>
      && r.value.lens[2 * i] == |records[i].key|
      && r.value.lens[2 * i + 1] == if records[i].value.Some? then |records[i].value.value| else 0xffff_ffff
  {
    var items := ItemsOfRecords(records);
    forall i | 0 <= i < |records|
      ensures Lens(NULL_VALUE, items)[2 * i] == |items[i].0| && Lens(NULL_VALUE, items)[2 * i + 1] == ValueLength(NULL_VALUE, items[i].1)
    {
      LensAt(NULL_VALUE, items, i);
    }
    assert forall x :: x in records ==> (x.key, x.value) in items by {
      assert forall i :: 0 <= i < |records| ==> items[i] == (records[i].key, records[i].value);
    }
    r := Pack(NULL_VALUE, items);
  }

  method UnpackRecords(p: Packed) returns (r: Option<seq<TransferRecord>>)
    ensures r == if Unflattened(NULL_VALUE, p).Some? then Some(RecordsOfItems(Unflattened(NULL_VALUE, p).value)) else None
  {
    var items := Unpack(NULL_VALUE, p);
    r := if items.Some? then Some(RecordsOfItems(items.value)) else None;
  }

  /** A record range comes back with its keys and values, sequence and type zeroed. */
  lemma RecordsRoundTrip(records: seq<TransferRecord>)
    requires forall x :: x in records ==> |x.key| < 0xffff_ffff && (x.value.Some? ==> |x.value.value| < 0xffff_ffff)
    ensures var r := Unflattened(NULL_VALUE, Flattened(NULL_VALUE, ItemsOfRecords(records)));
      && r.Some? && |RecordsOfItems(r.value)| == |records|
      && forall i :: 0 <= i < |records| ==> RecordsOfItems(r.value)[i] == records[i].(seqNo := 0, rtype := 0)
  {
    var items := ItemsOfRecords(records);
    forall x | x in items
      ensures Representable(NULL_VALUE, x)
    {
      var i :| 0 <= i < |items| && items[i] == x;
      assert records[i] in records;
    }
    RoundTrip(NULL_VALUE, items);
  }

  /** Table entries always have values: with 32-bit lengths nothing unpacks as null. */
  lemma {:induction false} TableValues(p: Packed, n: nat)
    requires 2 * n <= |p.lens| && forall len :: len in p.lens ==> len < TABLE_LIMIT
    ensures forall x :: x in ItemsOf(TABLE_LIMIT, p, n) ==> x.1.Some?
  {
    if n > 0 {
      TableValues(p, n - 1);
      assert p.lens[2 * n - 1] in p.lens;
    }
  }

  function EntriesOf(items: seq<Item>): seq<(Bytes, Bytes)>
    requires forall x :: x in items ==> x.1.Some?
  {
    seq(|items|, i requires 0 <= i < |items| => (items[i].0, items[i].1.value))
  }

  /** Rebuild a table whose lengths are 32-bit: it succeeds exactly when they use up both blobs, and packing the result gives the very
      same buffers back. */
  method UnpackTable(p: Packed) returns (r: Option<seq<(Bytes, Bytes)>>)
    requires forall len :: len in p.lens ==> len < TABLE_LIMIT
    ensures r.Some? <==> Exact(TABLE_LIMIT, p)
    ensures r.Some? ==> Flattened(TABLE_LIMIT, ItemsOfEntries(r.value)) == p
  {
    UnpackIsInverse(TABLE_LIMIT, p);
    var items := Unpack(TABLE_LIMIT, p);
    if items.None? {
      return None;
    }
    TableValues(p, |p.lens| / 2);
    r := Some(EntriesOf(items.value));
    assert ItemsOfEntries(r.value) == items.value;
  }

  method PackTable(entries: seq<(Bytes, Bytes)>) returns (r: Option<Packed>)
    ensures r.Some? ==> r.value == Flattened(TABLE_LIMIT, ItemsOfEntries(entries))
    ensures r.Some? ==> Unflattened(TABLE_LIMIT, r.value) == Some(ItemsOfEntries(entries))
    ensures r.None? <==> exists e :: e in entries && (|e.0| > 0xffff_ffff || |e.1| > 0xffff_ffff)
  {
    var items := ItemsOfEntries(entries);
    forall x | x in items
      ensures exists e :: e in entries && x == (e.0, Some(e.1))
    {
      var i :| 0 <= i < |items| && items[i] == x;
      assert entries[i] in entries;
    }
    forall e | e in entries
      ensures (e.0, Some(e.1)) in items
    {
      var i :| 0 <= i < |entries| && entries[i] == e;
      assert items[i] == (e.0, Some(e.1));
    }
    r := Pack(TABLE_LIMIT, items);
    if r.Some? {
      RoundTrip(TABLE_LIMIT, items);
    } else {
      var x :| x in items && !Representable(TABLE_LIMIT, x);
    }
  }

  function ItemsOfEntries(entries: seq<(Bytes, Bytes)>): seq<Item> {
    seq(|entries|, i requires 0 <= i < |entries| => (entries[i].0, Some(entries[i].1)))
  }
}
