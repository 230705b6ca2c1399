/** The write-ahead log: 32768-byte blocks of checksummed fragments, reassembled into write batches. */
module Wal {
  import opened Base
  import opened Source
  import opened Varints
  import LittleEndian

  datatype WalOp = WalOp(opType: Byte, key: Bytes, value: Option<Bytes>)

  datatype WalBatch = WalBatch(sequence: nat, ops: seq<WalOp>)

  const BLOCK: nat := 32768
  const HEADER: nat := 7

  const FULL: Byte := 1
  const FIRST: Byte := 2
  const MIDDLE: Byte := 3
  const LAST: Byte := 4

  /** `crc32c` and the mask it is stored under. */
  datatype Checksum = Checksum(crc: Bytes -> nat, mask: nat -> nat, unmask: nat -> nat)

  ghost predicate Masks(ck: Checksum) {
    forall b: Bytes :: ck.mask(ck.crc(b)) < 0x1_0000_0000 && ck.unmask(ck.mask(ck.crc(b))) == ck.crc(b)
  }

  // ---- batches ----

  /** A varint length and that many bytes at `p`. */
  function ReadField(record: Bytes, p: nat): (r: Option<(Bytes, nat)>)
    ensures r.Some? ==> p < r.value.1 <= |record|
  {
    var n := ReadVarint(record, p);
    if n.None? || n.value.1 + n.value.0 > |record| then None
    else Some((record[n.value.1..n.value.1 + n.value.0], n.value.1 + n.value.0))
  }

  /** A put has a key and a value, any other operation only a key. */
  function ReadOp(record: Bytes, p: nat): (r: Option<(WalOp, nat)>)
    requires p < |record|
    ensures r.Some? ==> p < r.value.1 <= |record|
  {
    var key := ReadField(record, p + 1);
    if key.None? then None
    else if record[p] != 1 then Some((WalOp(record[p], key.value.0, None), key.value.1))
    else
      var value := ReadField(record, key.value.1);
      if value.None? then None else Some((WalOp(1, key.value.0, Some(value.value.0)), value.value.1))
  }

  /** At most `count` operations; a malformed one ends the list. */
  function ReadOps(record: Bytes, p: nat, count: nat): seq<WalOp>
    decreases count
  {
    if count == 0 || p >= |record| then []
    else
      var op := ReadOp(record, p);
      if op.None? then [] else [op.value.0] + ReadOps(record, op.value.1, count - 1)
  }

  /** The batch in a reassembled record, if it has a whole header. */
  function BatchOf(record: Bytes): Option<WalBatch> {
    if |record| < 12 then None
    else Some(WalBatch(LittleEndian.Decode(record[0..8]), ReadOps(record, 12, LittleEndian.Decode(record[8..12]))))
  }

  function Emitted(record: Bytes): seq<WalBatch> {
    if BatchOf(record).Some? then [BatchOf(record).value] else []
  }

  // ---- framing ----

  /** What a fragment of the given type completes, and what is pending after it. */
  function Accept(rtype: Byte, chunk: Bytes, frag: Option<Bytes>): (seq<WalBatch>, Option<Bytes>) {
    if rtype == FULL then (Emitted(chunk), frag)
    else if rtype == FIRST then ([], Some(chunk))
    else if rtype == MIDDLE && frag.Some? then ([], Some(frag.value + chunk))
    else if rtype == LAST && frag.Some? then (Emitted(frag.value + chunk), None)
    else ([], frag)
  }

  function Remaining(data: Bytes, pos: nat): nat {
    if pos <= |data| then |data| - pos else 0
  }

  /** What is found at a position: padding up to a later one, a short or corrupt fragment, or a good one. */
  datatype Frame = Padding(next: nat) | EndOfLog | Fragment(rtype: Byte, chunk: Bytes, next: nat)

  function ToBlockEnd(pos: nat): (left: nat)
    ensures 0 < left <= BLOCK
  {
    BLOCK - pos % BLOCK
  }

  function FrameAt(ck: Checksum, data: Bytes, pos: nat): (f: Frame)
    requires pos + HEADER <= |data|
    ensures (f.Padding? ==> f.next > pos) && (f.Fragment? ==> pos + HEADER <= f.next <= |data|)
  {
    if ToBlockEnd(pos) < HEADER then Padding(pos + ToBlockEnd(pos))
    else
      var len, rtype := LittleEndian.Decode(data[pos + 4..pos + 6]), data[pos + 6];
      var start := pos + HEADER;
      if rtype == 0 && len == 0 then Padding(pos + ToBlockEnd(pos))
      else if start + len > |data| then EndOfLog
      else if ck.unmask(LittleEndian.Decode(data[pos..pos + 4])) != ck.crc(data[pos + 6..start + len]) then EndOfLog
      else Fragment(rtype, data[start..start + len], start + len)
  }

  /** The batches from `pos` on, with `frag` pending. */
  function ParseFrom(ck: Checksum, data: Bytes, pos: nat, frag: Option<Bytes>): seq<WalBatch>
    decreases Remaining(data, pos)
  {
    if pos + HEADER > |data| then []
    else
      match FrameAt(ck, data, pos)
      case EndOfLog => []
      case Padding(next) => ParseFrom(ck, data, next, frag)
      case Fragment(rtype, chunk, next) =>
        var done := Accept(rtype, chunk, frag);
        done.0 + ParseFrom(ck, data, next, done.1)
  }

  function Parse(ck: Checksum, data: Bytes): seq<WalBatch> {
    ParseFrom(ck, data, 0, None)
  }

  // ---- the imperative parser ----

  method EmitRecord(record: Bytes, batches: seq<WalBatch>) returns (out: seq<WalBatch>)
    ensures out == batches + Emitted(record)
  {
    hide ReadOp, LittleEndian.Decode;
    if |record| < 12 {
      return batches;
    }
    var sequence, count := LittleEndian.Decode(record[0..8]), LittleEndian.Decode(record[8..12]);
    var p, ops, i := 12, [], 0;
    ghost var all := ReadOps(record, p, count);
    while i < count && p < |record|
      invariant 12 <= p <= |record| && i <= count
      invariant all == ops + ReadOps(record, p, count - i)
      decreases count - i
    {
      var op := ReadOp(record, p);
      if op.None? {
        break;
      }
      assert ops + ([op.value.0] + ReadOps(record, op.value.1, count - i - 1)) == (ops + [op.value.0]) + ReadOps(record,
                                                                                                                 op.value.1, count - i - 1);
      ops, p, i := ops + [op.value.0], op.value.1, i + 1;
    }
    assert all == ops by {
      assert ops + [] == ops;
    }
    out := batches + [WalBatch(sequence, ops)];
  }

  /** The parser loop computes `Parse`. */
  method ParseWal(ck: Checksum, data: Bytes) returns (batches: seq<WalBatch>)
    ensures batches == Parse(ck, data)
  {
    hide Accept, FrameAt;
    batches := [];
    var pos: nat, frag: Option<Bytes> := 0, None;
    assert [] + ParseFrom(ck, data, 0, None) == ParseFrom(ck, data, 0, None);
    while pos + HEADER <= |data|
      invariant batches + ParseFrom(ck, data, pos, frag) == Parse(ck, data)
      decreases Remaining(data, pos)
    {
      var frame := ReadFrame(ck, data, pos);
      if frame.EndOfLog? {
        break;
      }
      pos := frame.next;
      if frame.Fragment? {
        ghost var before, done := batches, Accept(frame.rtype, frame.chunk, frag);
        assert before + (done.0 + ParseFrom(ck, data, pos, done.1)) == (before + done.0) + ParseFrom(ck, data, pos, done.1);
        batches, frag := AcceptFragment(frame.rtype, frame.chunk, batches, frag);
      }
    }
    assert batches + [] == batches;
  }

  /** The header checks, in the parser's order. */
  method ReadFrame(ck: Checksum, data: Bytes, pos: nat) returns (frame: Frame)
    requires pos + HEADER <= |data|
    ensures frame == FrameAt(ck, data, pos)
  {
    var blockOff := pos % BLOCK;
    if BLOCK - blockOff < HEADER {
      return Padding(pos + (BLOCK - blockOff));
    }
    var stored := LittleEndian.Decode(data[pos..pos + 4]);
    var len, rtype := LittleEndian.Decode(data[pos + 4..pos + 6]), data[pos + 6];
    var start := pos + HEADER;
    if rtype == 0 && len == 0 {
      return Padding(pos + (BLOCK - blockOff));
    }
    if start + len > |data| || ck.unmask(stored) != ck.crc(data[pos + 6..start + len]) {
      return EndOfLog;
    }
    frame := Fragment(rtype, data[start..start + len], start + len);
  }

  method AcceptFragment(rtype: Byte, chunk: Bytes, batches: seq<WalBatch>, frag: Option<Bytes>)
    returns (out: seq<WalBatch>, pending: Option<Bytes>)
    ensures out == batches + Accept(rtype, chunk, frag).0 && pending == Accept(rtype, chunk, frag).1
  {
    out, pending := batches, frag;
    if rtype == FULL {
      out := EmitRecord(chunk, batches);
    } else if rtype == FIRST {
      pending := Some(chunk);
    } else if rtype == MIDDLE {
      if frag.Some? {
        pending := Some(frag.value + chunk);
      }
    } else if rtype == LAST {
      if frag.Some? {
        out := EmitRecord(frag.value + chunk, batches);
        pending := None;
      }
    }
  }

  // ---- a torn tail ----

  /** A frame found in a cut log is the frame of the whole one. */
  lemma FrameOfCut(ck: Checksum, data: Bytes, n: nat, pos: nat)
    requires pos + HEADER <= n <= |data|
    ensures FrameAt(ck, data[..n], pos) == EndOfLog || FrameAt(ck, data[..n], pos) == FrameAt(ck, data, pos)
  {
    var cut := data[..n];
    assert cut[pos + 4..pos + 6] == data[pos + 4..pos + 6] && cut[pos + 6] == data[pos + 6];
    var len := LittleEndian.Decode(data[pos + 4..pos + 6]);
    var start := pos + HEADER;
    if start + len <= n {
      assert cut[pos..pos + 4] == data[pos..pos + 4];
      assert cut[pos + 6..start + len] == data[pos + 6..start + len];
      assert cut[start..start + len] == data[start..start + len];
    }
  }

  /** Main result: for any bytes whatsoever, cutting the log anywhere parses to a prefix of its batches. */
  lemma {:induction false} TornTail(ck: Checksum, data: Bytes, n: nat, pos: nat, frag: Option<Bytes>)
    requires n <= |data|
    ensures ParseFrom(ck, data[..n], pos, frag) <= ParseFrom(ck, data, pos, frag)
    decreases Remaining(data, pos)
  {
    hide FrameAt, Accept;
    if pos + HEADER <= n {
      FrameOfCut(ck, data, n, pos);
      var f := FrameAt(ck, data[..n], pos);
      if f.Padding? {
        TornTail(ck, data, n, f.next, frag);
      } else if f.Fragment? {
        TornTail(ck, data, n, f.next, Accept(f.rtype, f.chunk, frag).1);
      }
    }
  }
}
