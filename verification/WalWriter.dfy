/** The log writer of LevelDB's log format, as the specification the parser undoes. */
module WalWriter {
  import opened Base
  import opened Source
  import opened Varints
  import opened Wal
  import LittleEndian

  // ---- batches ----

  function EncodeField(b: Bytes): Bytes {
    Encode(|b|) + b
  }

  function EncodeOp(op: WalOp): Bytes {
    [op.opType] + EncodeField(op.key) + if op.value.Some? then EncodeField(op.value.value) else []
  }

  function EncodeOps(ops: seq<WalOp>): Bytes {
    if ops == [] then [] else EncodeOp(ops[0]) + EncodeOps(ops[1..])
  }

  function EncodeBatch(b: WalBatch): Bytes {
    LittleEndian.Encode(b.sequence, 8) + LittleEndian.Encode(|b.ops|, 4) + EncodeOps(b.ops)
  }

  /** What the format can carry: a value exactly with a put, and numbers within their widths. */
  predicate Writable(b: WalBatch) {
    && b.sequence < LittleEndian.Pow256(8) && |b.ops| < LittleEndian.Pow256(4)
    && forall op :: op in b.ops ==> WritableOp(op)
  }

  predicate WritableOp(op: WalOp) {
    (op.opType == 1 <==> op.value.Some?) && |op.key| < WORD && (op.value.Some? ==> |op.value.value| < WORD)
  }

  lemma FieldRoundTrip(record: Bytes, p: nat, b: Bytes)
    requires |b| < WORD && At(record, p, EncodeField(b))
    ensures ReadField(record, p) == Some((b, p + |EncodeField(b)|))
  {
    hide ReadVarint, Encode;
    AtParts(record, p, Encode(|b|), b);
    RoundTrip(record, p, |b|);
  }

  lemma OpRoundTrip(record: Bytes, p: nat, op: WalOp)
    requires WritableOp(op) && At(record, p, EncodeOp(op))
    ensures p < |record| && ReadOp(record, p) == Some((op, p + |EncodeOp(op)|))
  {
    hide EncodeField, ReadField, At;
    var key, value := EncodeField(op.key), if op.value.Some? then EncodeField(op.value.value) else [];
    assert EncodeOp(op) == [op.opType] + (key + value);
    AtHead(record, p, op.opType, key + value);
    AtParts(record, p + 1, key, value);
    FieldRoundTrip(record, p + 1, op.key);
    if op.value.Some? {
      FieldRoundTrip(record, p + 1 + |key|, op.value.value);
    }
  }

  lemma {:induction false} OpsRoundTrip(record: Bytes, p: nat, ops: seq<WalOp>)
    requires p <= |record| && record[p..] == EncodeOps(ops) && forall op :: op in ops ==> WritableOp(op)
    ensures ReadOps(record, p, |ops|) == ops
    decreases |ops|
  {
    hide ReadOp, EncodeOp, WritableOp;
    if ops != [] {
      var e := EncodeOp(ops[0]);
      assert |record| == p + |EncodeOps(ops)|;
      assert record[p..p + |e|] == record[p..][..|e|] == e;
      OpRoundTrip(record, p, ops[0]);
      assert record[p + |e|..] == record[p..][|e|..] == EncodeOps(ops[1..]);
      OpsRoundTrip(record, p + |e|, ops[1..]);
    }
  }

  /** A record that encodes a batch decodes to it. */
  lemma BatchRoundTrip(b: WalBatch)
    requires Writable(b)
    ensures BatchOf(EncodeBatch(b)) == Some(b)
  {
    hide EncodeOps, ReadOps, LittleEndian.Encode, LittleEndian.Decode, WritableOp;
    var e := EncodeBatch(b);
    assert e[0..8] == LittleEndian.Encode(b.sequence, 8) && e[8..12] == LittleEndian.Encode(|b.ops|, 4) && e[12..] == EncodeOps(b.ops);
    LittleEndian.RoundTrip(b.sequence, 8);
    LittleEndian.RoundTrip(|b.ops|, 4);
    OpsRoundTrip(e, 12, b.ops);
  }

  // ---- framing ----

  function Zeros(n: nat): Bytes {
    seq(n, i => 0)
  }

  /** A fragment's header and data; the checksum covers the type byte and the data. */
  function Physical(ck: Checksum, rtype: Byte, chunk: Bytes): (b: Bytes)
    ensures |b| == HEADER + |chunk|
  {
    LittleEndian.Encode(ck.mask(ck.crc([rtype] + chunk)), 4) + LittleEndian.Encode(|chunk|, 2) + [rtype] + chunk
  }

  /** Zeros that fill a block with no room for a header. */
  function PadTo(at: nat): (n: nat)
    ensures n < HEADER
  {
    if ToBlockEnd(at) < HEADER then ToBlockEnd(at) else 0
  }

  function TypeOf(begin: bool, end: bool): Byte {
    if begin then (if end then FULL else FIRST) else if end then LAST else MIDDLE
  }

  lemma NextBlock(at: nat)
    ensures ToBlockEnd(at + ToBlockEnd(at)) == BLOCK
  {
    assert (at + (BLOCK - at % BLOCK)) % BLOCK == 0;
  }

  /** Room for data after the padding and a header. */
  function Room(at: nat): nat {
    var at1 := at + PadTo(at);
    NextBlock(at);
    ToBlockEnd(at1) - HEADER
  }

  /** How much of the rest goes into the next fragment, and where that ends. */
  function Taken(rest: Bytes, at: nat): nat {
    Min(|rest|, Room(at))
  }

  function After(rest: Bytes, at: nat): nat {
    at + PadTo(at) + HEADER + Taken(rest, at)
  }

  /** A fragment that fills its block leaves the next one to the rest. */
  lemma RoomAfter(at: nat)
    ensures Room(at + PadTo(at) + HEADER + Room(at)) > 0
  {
    RoomForData(at);
    NextBlock(at + PadTo(at));
  }

  lemma RoomForData(at: nat)
    ensures ToBlockEnd(at + PadTo(at)) == Room(at) + HEADER && Room(at) < BLOCK
  {
    NextBlock(at);
  }

  /** The next fragment, padded to a new block when this one has no room for a header. */
  function Head(ck: Checksum, rest: Bytes, at: nat, begin: bool): (b: Bytes)
    ensures at + |b| == After(rest, at)
  {
    var n := Taken(rest, at);
    Zeros(PadTo(at)) + Physical(ck, TypeOf(begin, n == |rest|), rest[..n])
  }

  /** What the writer appends at file position `at` for the rest of a record. */
  function WriteRecord(ck: Checksum, rest: Bytes, at: nat, begin: bool): Bytes
    decreases |rest|, if Room(at) == 0 then 1 else 0
  {
    if Taken(rest, at) == |rest| then Head(ck, rest, at, begin)
    else
      RoomAfter(at);
      Head(ck, rest, at, begin) + WriteRecord(ck, rest[Taken(rest, at)..], After(rest, at), false)
  }

  function WriteLog(ck: Checksum, records: seq<Bytes>, at: nat): Bytes {
    if records == [] then []
    else
      var head := WriteRecord(ck, records[0], at, true);
      head + WriteLog(ck, records[1..], at + |head|)
  }

  lemma StartsAt(at: nat)
    ensures var left := 32768 - at % 32768;
      var start := if left < 7 then at + left else at;
      start == at + PadTo(at) && Room(at) == 32768 - start % 32768 - 7
  {
    NextBlock(at);
  }

  lemma InOneBlock(start: nat, n: nat)
    requires start % 32768 + 7 + n <= 32768
    ensures start / 32768 == (start + 7 + n - 1) / 32768
  {
  }

  /** What a fragment is, byte by byte: it starts in the current 32768-byte block when seven bytes are left there, takes what fits of the
      record, ends inside that block, and is of type 1 when it is the whole record, else 2, 3 or 4 for the first, a middle and the last. */
  lemma FragmentBytes(ck: Checksum, rest: Bytes, at: nat, begin: bool)
    ensures var left := 32768 - at % 32768;
      var start := if left < 7 then at + left else at;
      var n := Min(|rest|, 32768 - start % 32768 - 7);
      var rtype: Byte := if n == |rest| then (if begin then 1 else 4) else if begin then 2 else 3;
      && n >= 0 && start / 32768 == (start + 7 + n - 1) / 32768
      && Head(ck, rest, at, begin) == Zeros(start - at)
        + (LittleEndian.Encode(ck.mask(ck.crc([rtype] + rest[..n])), 4) + LittleEndian.Encode(n, 2) + [rtype] + rest[..n])
      && WriteRecord(ck, rest, at, begin) == Head(ck, rest, at, begin)
        + (if n == |rest| then [] else WriteRecord(ck, rest[n..], start + 7 + n, false))
  {
    hide LittleEndian.Encode, Zeros, Room, PadTo;
    StartsAt(at);
    InOneBlock(at + PadTo(at), Taken(rest, at));
  }

  /** How the parser treats a good fragment of each type: 1 is a record of its own and leaves what is pending; 2 starts a record; 3 and 4
      go on with it and end it, or are passed over when none is pending; so is any other type. */
  lemma FragmentTypes(ck: Checksum, data: Bytes, pos: nat, rtype: Byte, chunk: Bytes, frag: Option<Bytes>)
    requires Masks(ck) && rtype != 0 && 32768 - pos % 32768 >= 7 && |chunk| < 32768
    requires At(data, pos, Physical(ck, rtype, chunk))
    ensures var next := pos + 7 + |chunk|;
      && (rtype == 1 ==> ParseFrom(ck, data, pos, frag) == Emitted(chunk) + ParseFrom(ck, data, next, frag))
      && (rtype == 2 ==> ParseFrom(ck, data, pos, frag) == ParseFrom(ck, data, next, Some(chunk)))
      && (rtype == 3 && frag.Some? ==> ParseFrom(ck, data, pos, frag) == ParseFrom(ck, data, next, Some(frag.value + chunk)))
      && (rtype == 4 && frag.Some? ==> ParseFrom(ck, data, pos, frag) == Emitted(frag.value + chunk) + ParseFrom(ck, data, next, None))
      && (rtype > 4 || (rtype > 2 && frag.None?) ==> ParseFrom(ck, data, pos, frag) == ParseFrom(ck, data, next, frag))
  {
    hide FrameAt, Physical, Masks, Emitted, At;
    FrameRoundTrip(ck, data, pos, rtype, chunk);
    Stands(data, pos, Physical(ck, rtype, chunk));
    assert [] + ParseFrom(ck, data, pos + 7 + |chunk|, Accept(rtype, chunk, frag).1) ==
           ParseFrom(ck, data, pos + 7 + |chunk|, Accept(rtype, chunk, frag).1);
  }

  lemma Stands(data: Bytes, pos: nat, b: Bytes)
    requires At(data, pos, b)
    ensures pos + |b| <= |data|
  {
  }

  /** A zeroed header leads to the next block; a fragment that is cut short or fails its checksum ends the log. */
  lemma BadFragments(ck: Checksum, data: Bytes, pos: nat, frag: Option<Bytes>)
    requires pos + 7 <= |data| && 32768 - pos % 32768 >= 7
    ensures var len := data[pos + 4] as int + 256 * data[pos + 5] as int;
      && (len == 0 && data[pos + 6] == 0 ==> ParseFrom(ck, data, pos, frag) == ParseFrom(ck, data, (pos / 32768 + 1) * 32768, frag))
      && ((len > 0 || data[pos + 6] > 0) && pos + 7 + len > |data| ==> ParseFrom(ck, data, pos, frag) == [])
      && ((len > 0 || data[pos + 6] > 0) && pos + 7 + len <= |data|
          && ck.unmask(LittleEndian.Decode(data[pos..pos + 4])) != ck.crc(data[pos + 6..pos + 7 + len]) ==>
            ParseFrom(ck, data, pos, frag) == [])
  {
    hide LittleEndian.Decode;
    TwoByteNumber(data[pos + 4..pos + 6]);
    BlockEnd(pos);
  }

  lemma BlockEnd(pos: nat)
    ensures pos + ToBlockEnd(pos) == (pos / 32768 + 1) * 32768
  {
  }

  lemma TwoByteNumber(b: Bytes)
    requires |b| == 2
    ensures LittleEndian.Decode(b) == b[0] as int + 256 * b[1] as int
  {
    var high := b[1..];
    assert high[1..] == [] && LittleEndian.Decode(high) == b[1];
  }

  const DELTA: nat := 0xa282_ead8
  const WORD32: nat := 0x1_0000_0000

  /** LevelDB's checksum mask: rotate right by 15 bits and add a constant. */
  function Masked(crc: nat): nat {
    (crc / 32768 + crc % 32768 * 131072 + DELTA) % WORD32
  }

  /** Subtract the constant and rotate left by 15 bits. */
  function Unmasked(m: nat): nat {
    var x := (m + WORD32 - DELTA) % WORD32;
    x / 131072 + x % 131072 * 32768
  }

  lemma MaskRoundTrip(crc: nat)
    requires crc < WORD32
    ensures Masked(crc) < WORD32 && Unmasked(Masked(crc)) == crc
  {
    var a, b := crc / 32768, crc % 32768;
    var rotated := a + b * 131072;
    assert crc == 32768 * a + b && a < 131072 && rotated < WORD32;
    assert (Masked(crc) + WORD32 - DELTA) % WORD32 == rotated;
    assert rotated / 131072 == b && rotated % 131072 == a;
  }

  /** So any 32-bit checksum stored under LevelDB's mask is one the framing results hold for. */
  lemma LevelDbMasks(crc: Bytes -> nat)
    requires forall b: Bytes :: crc(b) < WORD32
    ensures Masks(Checksum(crc, Masked, Unmasked))
    ensures Masked(0) == 0xa282_ead8 && Masked(1) == 0xa284_ead8 && Masked(0x8000) == 0xa282_ead9
  {
    forall b: Bytes
      ensures Masked(crc(b)) < WORD32 && Unmasked(Masked(crc(b))) == crc(b)
    {
      MaskRoundTrip(crc(b));
    }
  }

  lemma FrameRoundTrip(ck: Checksum, data: Bytes, pos: nat, rtype: Byte, chunk: Bytes)
    requires Masks(ck) && rtype != 0 && ToBlockEnd(pos) >= HEADER && |chunk| < BLOCK
    requires At(data, pos, Physical(ck, rtype, chunk))
    ensures FrameAt(ck, data, pos) == Fragment(rtype, chunk, pos + HEADER + |chunk|)
  {
    hide LittleEndian.Encode, LittleEndian.Decode;
    var b := Physical(ck, rtype, chunk);
    var end := pos + HEADER + |chunk|;
    SliceOfSlice(data, pos, end, 0, 4);
    SliceOfSlice(data, pos, end, 4, 6);
    SliceOfSlice(data, pos, end, 6, |b|);
    SliceOfSlice(data, pos, end, 7, |b|);
    assert b[0..4] == LittleEndian.Encode(ck.mask(ck.crc([rtype] + chunk)), 4);
    assert b[4..6] == LittleEndian.Encode(|chunk|, 2);
    assert data[pos + 6] == b[6] == rtype;
    assert b[7..|b|] == chunk;
    assert b[6..|b|] == [b[6]] + b[7..|b|];
    Widths();
    LittleEndian.RoundTrip(ck.mask(ck.crc([rtype] + chunk)), 4);
    LittleEndian.RoundTrip(|chunk|, 2);
  }

  lemma Widths()
    ensures LittleEndian.Pow256(2) == 0x1_0000 && LittleEndian.Pow256(4) == 0x1_0000_0000
  {
    assert LittleEndian.Pow256(1) == 256;
    assert LittleEndian.Pow256(3) == 256 * LittleEndian.Pow256(2);
  }

  /** What is pending before and after part of a record was read. */
  function Pending(begin: bool, frag: Option<Bytes>): Bytes {
    if begin || frag.None? then [] else frag.value
  }

  /** The fragment the writer puts at `at`. */
  ghost predicate Written(ck: Checksum, data: Bytes, rest: Bytes, at: nat, begin: bool) {
    At(data, at, WriteRecord(ck, rest, at, begin))
  }

  lemma FragmentRoundTrip(ck: Checksum, data: Bytes, rest: Bytes, at: nat, begin: bool, frag: Option<Bytes>)
    requires Masks(ck) && Written(ck, data, rest, at, begin)
    ensures var n := Taken(rest, at);
      var done := Accept(TypeOf(begin, n == |rest|), rest[..n], frag);
      ParseFrom(ck, data, at, frag) == done.0 + ParseFrom(ck, data, After(rest, at), done.1)
  {
    hide FrameAt, Physical, Masks, Accept, Emitted, Room, WriteRecord, Head, At;
    var n := Taken(rest, at);
    var pos, rtype := at + PadTo(at), TypeOf(begin, n == |rest|);
    HeadFirst(ck, data, rest, at, begin);
    SkipPad(ck, data, at, frag);
    RoomForData(at);
    FrameRoundTrip(ck, data, pos, rtype, rest[..n]);
  }

  lemma HeadFirst(ck: Checksum, data: Bytes, rest: Bytes, at: nat, begin: bool)
    requires Written(ck, data, rest, at, begin)
    ensures At(data, at + PadTo(at), Physical(ck, TypeOf(begin, Taken(rest, at) == |rest|), rest[..Taken(rest, at)]))
    ensures After(rest, at) <= |data|
  {
    hide Physical, Zeros;
    var head, w := Head(ck, rest, at, begin), WriteRecord(ck, rest, at, begin);
    var more := w[|head|..];
    assert w == head + more;
    AtParts(data, at, head, more);
    AtParts(data, at, Zeros(PadTo(at)), Physical(ck, TypeOf(begin, Taken(rest, at) == |rest|), rest[..Taken(rest, at)]));
    assert |Zeros(PadTo(at))| == PadTo(at);
  }

  /** What follows the first fragment is what the writer puts there for the rest. */
  lemma RestWritten(ck: Checksum, data: Bytes, rest: Bytes, at: nat, begin: bool)
    requires Written(ck, data, rest, at, begin) && Taken(rest, at) < |rest|
    ensures Room(After(rest, at)) > 0
    ensures Written(ck, data, rest[Taken(rest, at)..], After(rest, at), false)
    ensures After(rest, at) + |WriteRecord(ck, rest[Taken(rest, at)..], After(rest, at), false)| == at + |WriteRecord(ck, rest, at, begin)|
  {
    hide Physical, Room, PadTo, TypeOf, Head, At;
    RoomAfter(at);
    AtParts(data, at, Head(ck, rest, at, begin), WriteRecord(ck, rest[Taken(rest, at)..], After(rest, at), false));
  }

  /** The parser reassembles one written record, whatever stands before and after it in the file. */
  lemma {:induction false} RecordRoundTrip(ck: Checksum, data: Bytes, rest: Bytes, at: nat, begin: bool, frag: Option<Bytes>)
    requires Masks(ck) && (begin <==> frag.None?) && Written(ck, data, rest, at, begin)
    ensures ParseFrom(ck, data, at, frag)
      == Emitted(Pending(begin, frag) + rest) + ParseFrom(ck, data, at + |WriteRecord(ck, rest, at, begin)|, None)
    decreases |rest|, if Room(at) == 0 then 1 else 0
  {
    hide ParseFrom, Physical, Emitted, Masks, Written, Room, PadTo, Zeros, Head;
    FragmentRoundTrip(ck, data, rest, at, begin, frag);
    var n := Taken(rest, at);
    var done := Accept(TypeOf(begin, n == |rest|), rest[..n], frag);
    if n == |rest| {
      assert rest[..n] == rest;
      assert [] + rest == rest;
    } else {
      RestWritten(ck, data, rest, at, begin);
      RecordRoundTrip(ck, data, rest[n..], After(rest, at), false, done.1);
      assert Pending(begin, frag) + rest == (Pending(begin, frag) + rest[..n]) + rest[n..];
      assert [] + rest[..n] == rest[..n];
      assert [] + ParseFrom(ck, data, After(rest, at), done.1) == ParseFrom(ck, data, After(rest, at), done.1);
    }
  }

  lemma SkipPad(ck: Checksum, data: Bytes, at: nat, frag: Option<Bytes>)
    requires at + PadTo(at) + HEADER <= |data|
    ensures ParseFrom(ck, data, at, frag) == ParseFrom(ck, data, at + PadTo(at), frag)
  {
  }

  lemma EndOfData(ck: Checksum, data: Bytes)
    ensures ParseFrom(ck, data, |data|, None) == []
  {
  }

  function EmittedAll(records: seq<Bytes>): seq<WalBatch> {
    if records == [] then [] else Emitted(records[0]) + EmittedAll(records[1..])
  }

  lemma {:induction false} LogRoundTrip(ck: Checksum, data: Bytes, records: seq<Bytes>, at: nat)
    requires Masks(ck) && at <= |data| && data[at..] == WriteLog(ck, records, at)
    ensures ParseFrom(ck, data, at, None) == EmittedAll(records)
  {
    hide Emitted, Masks, WriteRecord, ParseFrom;
    if records == [] {
      assert |data| == at;
      EndOfData(ck, data);
    } else {
      var w := WriteRecord(ck, records[0], at, true);
      assert data[at..at + |w|] == data[at..][..|w|] == w;
      RecordRoundTrip(ck, data, records[0], at, true, None);
      assert data[at + |w|..] == data[at..][|w|..] == WriteLog(ck, records[1..], at + |w|);
      LogRoundTrip(ck, data, records[1..], at + |w|);
      assert [] + records[0] == records[0];
    }
  }

  function Encoded(batches: seq<WalBatch>): seq<Bytes> {
    if batches == [] then [] else [EncodeBatch(batches[0])] + Encoded(batches[1..])
  }

  lemma {:induction false} EncodedEmits(batches: seq<WalBatch>)
    requires forall b :: b in batches ==> Writable(b)
    ensures EmittedAll(Encoded(batches)) == batches
  {
    hide EncodeBatch, BatchOf, Writable;
    if batches != [] {
      BatchRoundTrip(batches[0]);
      EncodedEmits(batches[1..]);
      assert Encoded(batches)[1..] == Encoded(batches[1..]);
    }
  }

  /** Main result: parsing undoes the writer, for any batches over any number of blocks; and a log cut anywhere, torn fragments
      included, holds the batches of an earlier point in time. */
  lemma ParseUndoesWrite(ck: Checksum, batches: seq<WalBatch>, n: nat)
    requires Masks(ck) && (forall b :: b in batches ==> Writable(b)) && n <= |WriteLog(ck, Encoded(batches), 0)|
    ensures Parse(ck, WriteLog(ck, Encoded(batches), 0)) == batches
    ensures Parse(ck, WriteLog(ck, Encoded(batches), 0)[..n]) <= batches
  {
    var data := WriteLog(ck, Encoded(batches), 0);
    assert data[0..] == data;
    LogRoundTrip(ck, data, Encoded(batches), 0);
    EncodedEmits(batches);
    TornTail(ck, data, n, 0, None);
  }
}
