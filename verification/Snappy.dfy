/** The Snappy raw-block decompressor: copies in growing chunks and a one-byte fill, against the byte-by-byte definition. */
module Snappy {
  import opened Base
  import opened Source
  import opened Varints
  import LittleEndian

  /** One element of the stream: literal bytes, or a copy of bytes produced `offset` before. */
  datatype Element = Literal(bytes: Bytes) | CopyOf(len: nat, offset: nat)

  // ---- the stream ----

  function TwoBytes(input: Bytes, ip: nat, n: nat): nat
    requires ip + n <= |input|
  {
    LittleEndian.Decode(input[ip..ip + n])
  }

  /** Bytes of the length field after a literal's tag. */
  function LengthBytes(tag: Byte): nat {
    if tag / 4 < 60 then 0 else tag / 4 - 59
  }

  /** The element at `ip` and the position after it, if its bytes are all there. */
  function ElementAt(input: Bytes, ip: nat): (r: Option<(Element, nat)>)
    requires ip < |input|
    ensures r.Some? ==> ip < r.value.1 <= |input| && (r.value.0.CopyOf? ==> r.value.0.len > 0)
  {
    var tag := input[ip];
    var at := ip + 1;
    if tag % 4 == 0 then
      var extra := LengthBytes(tag);
      if at + extra > |input| then None
      else
        var len := if extra == 0 then tag / 4 + 1 else TwoBytes(input, at, extra) + 1;
        if at + extra + len > |input| then None
        else Some((Literal(input[at + extra..at + extra + len]), at + extra + len))
    else if tag % 4 == 1 then
      if at + 1 > |input| then None else Some((CopyOf((tag / 4) % 8 + 4, (tag / 32) * 256 + input[at]), at + 1))
    else
      var width := if tag % 4 == 2 then 2 else 4;
      if at + width > |input| then None else Some((CopyOf(tag / 4 + 1, TwoBytes(input, at, width)), at + width))
  }

  // ---- the definition ----

  /** Byte-at-a-time feed-forward: each copied byte may be one this copy produced. */
  function FeedForward(out: Bytes, offset: nat, len: nat): (r: Bytes)
    requires 1 <= offset <= |out|
    ensures |r| == |out| + len && out <= r
    decreases len
  {
    if len == 0 then out else FeedForward(out + [out[|out| - offset]], offset, len - 1)
  }

  /** A copy reaches back to a byte already produced. */
  predicate Applies(e: Element, out: Bytes) {
    e.CopyOf? ==> 1 <= e.offset <= |out|
  }

  function Apply(e: Element, out: Bytes): (r: Bytes)
    requires Applies(e, out)
    ensures |r| == |out| + Length(e)
  {
    match e
    case Literal(bytes) => out + bytes
    case CopyOf(len, offset) => FeedForward(out, offset, len)
  }

  function Length(e: Element): nat {
    match e
    case Literal(bytes) => |bytes|
    case CopyOf(len, _) => len
  }

  /** What the elements from `ip` on make of `out`; `None` for a stream that is not well-formed. */
  function Decoded(input: Bytes, ip: nat, out: Bytes): Option<Bytes>
    requires ip <= |input|
    decreases |input| - ip
  {
    if ip == |input| then Some(out)
    else
      var e := ElementAt(input, ip);
      if e.None? || !Applies(e.value.0, out) then None else Decoded(input, e.value.1, Apply(e.value.0, out))
  }

  /** A well-formed block: its announced length and its content. */
  function Content(input: Bytes): Option<(nat, Bytes)> {
    var n := ReadVarint(input, 0);
    if n.None? then None
    else
      var out := Decoded(input, n.value.1, []);
      if out.None? then None else Some((n.value.0, out.value))
  }

  // ---- the format, written ----

  /** An element as the format description writes it: a literal with its length in the tag or in one to four bytes after it, a copy with
      one, two or four bytes of offset. */
  datatype Wire =
    | Short(bytes: Bytes)
    | Long(bytes: Bytes, width: nat)
    | NearCopy(len: nat, offset: nat)
    | CopyTwo(len: nat, offset: nat)
    | CopyFour(len: nat, offset: nat)

  predicate Writable(w: Wire) {
    match w
    case Short(b) => 1 <= |b| <= 60
    case Long(b, width) => 1 <= width <= 4 && 1 <= |b| <= LittleEndian.Pow256(width)
    case NearCopy(len, offset) => 4 <= len <= 11 && offset < 2048
    case CopyTwo(len, offset) => 1 <= len <= 64 && offset < 0x1_0000
    case CopyFour(len, offset) => 1 <= len <= 64 && offset < 0x1_0000_0000
  }

  function Written(w: Wire): (b: Bytes)
    requires Writable(w)
    ensures |b| > 0
  {
    match w
    case Short(b) => [4 * (|b| - 1)] + b
    case Long(b, width) => [4 * (59 + width)] + (LittleEndian.Encode(|b| - 1, width) + b)
    case NearCopy(len, offset) => [1 + 4 * (len - 4) + 32 * (offset / 256)] + [offset % 256]
    case CopyTwo(len, offset) => [2 + 4 * (len - 1)] + LittleEndian.Encode(offset, 2)
    case CopyFour(len, offset) => [3 + 4 * (len - 1)] + LittleEndian.Encode(offset, 4)
  }

  function WrittenAll(ws: seq<Wire>): Bytes
    requires forall w :: w in ws ==> Writable(w)
  {
    if ws == [] then [] else Written(ws[0]) + WrittenAll(ws[1..])
  }

  function Stream(n: nat, ws: seq<Wire>): Bytes
    requires forall w :: w in ws ==> Writable(w)
  {
    Varints.Encode(n) + WrittenAll(ws)
  }

  /** What one more element makes of `out`: its bytes, or the last `offset` bytes over and over. */
  function Grown(out: Bytes, w: Wire): (r: Bytes)
    requires Writable(w) && (w.Short? || w.Long? || 1 <= w.offset <= |out|)
  {
    match w
    case Short(b) => out + b
    case Long(b, _) => out + b
    case _ => Repeated(out, w.offset, w.len)
  }

  function Repeated(out: Bytes, offset: nat, len: nat): (r: Bytes)
    requires 1 <= offset <= |out|
  {
    out + seq(len, k requires 0 <= k < len => out[|out| - offset + k % offset])
  }

  /** The content of a written stream; `None` when a copy reaches back too far. */
  function Produced(out: Bytes, ws: seq<Wire>): Option<Bytes>
    requires forall w :: w in ws ==> Writable(w)
    decreases |ws|
  {
    if ws == [] then Some(out)
    else if ws[0].Short? || ws[0].Long? || 1 <= ws[0].offset <= |out| then Produced(Grown(out, ws[0]), ws[1..])
    else None
  }

  function Meaning(w: Wire): Element
    requires Writable(w)
  {
    match w
    case Short(b) => Literal(b)
    case Long(b, _) => Literal(b)
    case _ => CopyOf(w.len, w.offset)
  }

  lemma NumberAt(input: Bytes, at: nat, n: nat, width: nat)
    requires n < LittleEndian.Pow256(width) && At(input, at, LittleEndian.Encode(n, width))
    ensures TwoBytes(input, at, width) == n
  {
    LittleEndian.RoundTrip(n, width);
  }

  /** A written element is read back, wherever it stands. */
  lemma ElementReadsBack(input: Bytes, ip: nat, w: Wire)
    requires Writable(w) && At(input, ip, Written(w))
    ensures ip < |input| && ElementAt(input, ip) == Some((Meaning(w), ip + |Written(w)|))
  {
    hide At, ElementAt, Written;
    match w
    case Short(_) => ShortReadsBack(input, ip, w);
    case Long(_, _) => LongReadsBack(input, ip, w);
    case NearCopy(_, _) => NearReadsBack(input, ip, w);
    case CopyTwo(_, _) => FarReadsBack(input, ip, w);
    case CopyFour(_, _) => FarReadsBack(input, ip, w);
  }

  lemma Stands(input: Bytes, at: nat, b: Bytes)
    requires At(input, at, b)
    ensures at + |b| <= |input| && input[at..at + |b|] == b
  {
  }

  lemma Widths()
    ensures LittleEndian.Pow256(2) == 0x1_0000 && LittleEndian.Pow256(4) == 0x1_0000_0000
  {
    assert LittleEndian.Pow256(3) == 256 * LittleEndian.Pow256(2) && LittleEndian.Pow256(2) == 256 * LittleEndian.Pow256(1);
  }

  lemma ShortReadsBack(input: Bytes, ip: nat, w: Wire)
    requires Writable(w) && w.Short? && At(input, ip, Written(w))
    ensures ip < |input| && ElementAt(input, ip) == Some((Meaning(w), ip + |Written(w)|))
  {
    hide At, TwoBytes;
    var tag: Byte := 4 * (|w.bytes| - 1);
    assert Written(w) == [tag] + w.bytes;
    AtHead(input, ip, tag, w.bytes);
    Stands(input, ip + 1, w.bytes);
  }

  lemma NearTag(tag: nat, a: nat, h: nat)
    requires a < 8 && h < 8 && tag == 1 + 4 * a + 32 * h
    ensures tag < 256 && tag % 4 == 1 && tag / 4 % 8 == a && tag / 32 == h
  {
    assert tag / 4 == a + 8 * h;
  }

  lemma NearReadsBack(input: Bytes, ip: nat, w: Wire)
    requires Writable(w) && w.NearCopy? && At(input, ip, Written(w))
    ensures ip < |input| && ElementAt(input, ip) == Some((Meaning(w), ip + |Written(w)|))
  {
    hide At, TwoBytes;
    NearTag(1 + 4 * (w.len - 4) + 32 * (w.offset / 256), w.len - 4, w.offset / 256);
    var tag: Byte, low: Byte := 1 + 4 * (w.len - 4) + 32 * (w.offset / 256), w.offset % 256;
    assert Written(w) == [tag] + ([low] + []);
    AtHead(input, ip, tag, [low] + []);
    AtHead(input, ip + 1, low, []);
  }

  lemma FarReadsBack(input: Bytes, ip: nat, w: Wire)
    requires Writable(w) && (w.CopyTwo? || w.CopyFour?) && At(input, ip, Written(w))
    ensures ip < |input| && ElementAt(input, ip) == Some((Meaning(w), ip + |Written(w)|))
  {
    hide LittleEndian.Encode, LittleEndian.Pow256, TwoBytes, At;
    var width := if w.CopyTwo? then 2 else 4;
    Widths();
    var tag: Byte, n := (if w.CopyTwo? then 2 else 3) + 4 * (w.len - 1), LittleEndian.Encode(w.offset, width);
    assert Written(w) == [tag] + n;
    AtHead(input, ip, tag, n);
    Stands(input, ip + 1, n);
    NumberAt(input, ip + 1, w.offset, width);
  }

  lemma LongReadsBack(input: Bytes, ip: nat, w: Wire)
    requires Writable(w) && w.Long? && At(input, ip, Written(w))
    ensures ip < |input| && ElementAt(input, ip) == Some((Meaning(w), ip + |Written(w)|))
  {
    hide LittleEndian.Encode, LittleEndian.Pow256, TwoBytes, At;
    var b, width := w.bytes, w.width;
    var tag: Byte, n := 4 * (59 + width), LittleEndian.Encode(|b| - 1, width);
    assert Written(w) == [tag] + (n + b);
    AtHead(input, ip, tag, n + b);
    AtParts(input, ip + 1, n, b);
    Stands(input, ip + 1, n);
    NumberAt(input, ip + 1, |b| - 1, width);
    Stands(input, ip + 1 + width, b);
  }

  lemma ShiftRemainder(k: nat, offset: nat)
    requires 1 <= offset <= k
    ensures (k - offset) % offset == k % offset
  {
    var q := (k - offset) / offset;
    assert q * offset <= k - offset < (q + 1) * offset;
    assert (q + 1) * offset <= k < (q + 2) * offset;
    LittleEndian.Quotient(k, offset, q + 1);
  }

  lemma RepeatsAt(out: Bytes, offset: nat, len: nat, k: nat)
    requires 1 <= offset <= |out| && k < len
    ensures Repeated(out, offset, len)[|out| + k] == Repeated(out, offset, len)[|out| + k - offset]
  {
    if k >= offset {
      ShiftRemainder(k, offset);
    } else {
      LittleEndian.Quotient(k, offset, 0);
    }
  }

  /** Feeding forward repeats the last `offset` bytes. */
  lemma FeedForwardRepeats(out: Bytes, offset: nat, len: nat)
    requires 1 <= offset <= |out|
    ensures FeedForward(out, offset, len) == Repeated(out, offset, len)
  {
    hide FeedForward;
    var r := Repeated(out, offset, len);
    RepeatedGrows(out, offset, len);
    assert Periodic(r, |out|, offset) by {
      hide Repeated;
      forall i | |out| <= i < |r| && i >= offset
        ensures r[i] == r[i - offset]
      {
        RepeatsAt(out, offset, len, i - |out|);
      }
    }
    hide Repeated, Periodic;
    PeriodicIsFeedForward(out, offset, r);
  }

  lemma RepeatedGrows(out: Bytes, offset: nat, len: nat)
    requires 1 <= offset <= |out|
    ensures out <= Repeated(out, offset, len) && |Repeated(out, offset, len)| == |out| + len
  {
  }

  lemma {:induction false} StreamDecodes(input: Bytes, ip: nat, ws: seq<Wire>, out: Bytes)
    requires forall w :: w in ws ==> Writable(w)
    requires At(input, ip, WrittenAll(ws)) && ip + |WrittenAll(ws)| == |input|
    ensures Decoded(input, ip, out) == Produced(out, ws)
    decreases |ws|
  {
    hide At, Written, ElementAt, FeedForward, Repeated;
    if ws != [] {
      AtParts(input, ip, Written(ws[0]), WrittenAll(ws[1..]));
      ElementReadsBack(input, ip, ws[0]);
      var e := Meaning(ws[0]);
      if Applies(e, out) {
        if e.CopyOf? {
          FeedForwardRepeats(out, e.offset, e.len);
        }
        assert Apply(e, out) == Grown(out, ws[0]);
        StreamDecodes(input, ip + |Written(ws[0])|, ws[1..], Grown(out, ws[0]));
      }
    }
  }

  /** Main result: a written stream is well-formed iff its copies stay inside what is there, and its content is what they and the literals
      make. */
  lemma StreamContent(n: nat, ws: seq<Wire>)
    requires n < WORD && forall w :: w in ws ==> Writable(w)
    ensures Content(Stream(n, ws)) == if Produced([], ws).Some? then Some((n, Produced([], ws).value)) else None
  {
    hide Decoded, Produced, WrittenAll;
    var input, head := Stream(n, ws), Varints.Encode(n);
    assert input[0..|head|] == head && input[|head|..|head| + |WrittenAll(ws)|] == WrittenAll(ws);
    Varints.RoundTrip(input, 0, n);
    StreamDecodes(input, |head|, ws, []);
  }

  // ---- periodicity ----

  /** Every byte from `from` on equals the one `offset` before it. */
  ghost predicate Periodic(b: Bytes, from: nat, offset: nat) {
    forall i :: from <= i < |b| && i >= offset ==> b[i] == b[i - offset]
  }

  /** Feed-forward is the one periodic extension. */
  lemma {:induction false} PeriodicIsFeedForward(out: Bytes, offset: nat, r: Bytes)
    requires 1 <= offset <= |out| && out <= r
    ensures Periodic(r, |out|, offset) <==> r == FeedForward(out, offset, |r| - |out|)
    decreases |r| - |out|
  {
    if |r| > |out| {
      var next := out + [out[|out| - offset]];
      assert r[|out| - offset] == out[|out| - offset];
      if r[|out|] == r[|out| - offset] {
        assert next <= r;
        PeriodicIsFeedForward(next, offset, r);
      } else {
        assert FeedForward(out, offset, |r| - |out|)[|out|] == next[|out|];
      }
    }
  }

  /** A byte a whole number of periods back is the same byte. */
  lemma {:induction false} PeriodsBack(b: Bytes, from: nat, offset: nat, i: nat, k: nat)
    requires 1 <= offset <= from <= |b| && Periodic(b, from, offset)
    requires from - offset <= i && i + k * offset < |b|
    ensures b[i + k * offset] == b[i]
    decreases k
  {
    if k > 0 {
      assert i + k * offset == (i + (k - 1) * offset) + offset;
      assert (k - 1) * offset >= 0;
      PeriodsBack(b, from, offset, i, k - 1);
    }
  }

  // ---- the copies, in place ----

  /** One chunk: bytes read a whole number of periods back keep the output periodic. */
  lemma ChunkStaysPeriodic(before: Bytes, after: Bytes, op0: nat, offset: nat, m: nat, chunk: nat)
    requires 1 <= offset <= op0 <= |before| && Periodic(before, op0, offset)
    requires m >= 1 && |before| == op0 - offset + m * offset && chunk <= m * offset
    requires after == before + before[op0 - offset..op0 - offset + chunk]
    ensures Periodic(after, op0, offset)
  {
    var src, op := op0 - offset, |before|;
    forall i | op0 <= i < |after| && i >= offset
      ensures after[i] == after[i - offset]
    {
      if i >= op {
        var j := i - op;
        assert after[i] == before[src + j];
        if j < offset {
          assert src + j + (m - 1) * offset == i - offset;
          PeriodsBack(before, op0, offset, src + j, m - 1);
        } else {
          assert after[i - offset] == before[src + j - offset];
        }
      }
    }
  }

  lemma NothingNew(b: Bytes, offset: nat)
    ensures Periodic(b, |b|, offset)
  {
  }

  /** `out.copyWithin(op, src, src + chunk)`, on bytes that do not overlap. */
  method CopyWithin(out: array<Byte>, op: nat, src: nat, chunk: nat)
    requires src + chunk <= op && op + chunk <= out.Length
    modifies out
    ensures out[..op + chunk] == old(out[..op]) + old(out[..op])[src..src + chunk]
  {
    ghost var before := out[..op];
    forall j | 0 <= j < chunk {
      out[op + j] := out[src + j];
    }
    assert out[..op + chunk] == before + before[src..src + chunk];
  }

  /** The doubling loop: each chunk copies only bytes already produced, and the run available doubles. */
  method CopyChunks(out: array<Byte>, op0: nat, offset: nat, len: nat)
    requires 1 <= offset <= op0 && op0 + len <= out.Length
    modifies out
    ensures out[..op0 + len] == FeedForward(old(out[..op0]), offset, len)
  {
    hide FeedForward, Periodic;
    var src, end, op := op0 - offset, op0 + len, op0;
    ghost var m := 1;
    NothingNew(out[..op0], offset);
    while op < end
      invariant op0 <= op <= end && m >= 1 && (op < end ==> op - src == m * offset)
      invariant out[..op0] == old(out[..op0]) && Periodic(out[..op], op0, offset)
    {
      var chunk := Min(op - src, end - op);
      ghost var before := out[..op];
      CopyWithin(out, op, src, chunk);
      assert out[..op0] == out[..op + chunk][..op0] == before[..op0];
      ChunkStaysPeriodic(before, out[..op + chunk], op0, offset, m, chunk);
      op := op + chunk;
      m := 2 * m;
    }
    assert out[..op][..op0] == old(out[..op0]);
    PeriodicIsFeedForward(old(out[..op0]), offset, out[..op]);
  }

  /** The run of one byte. */
  method FillRun(out: array<Byte>, op: nat, len: nat)
    requires 1 <= op && op + len <= out.Length
    modifies out
    ensures out[..op + len] == FeedForward(old(out[..op]), 1, len)
  {
    var b := out[op - 1];
    ghost var before := out[..op];
    forall j | 0 <= j < len {
      out[op + j] := b;
    }
    var r := out[..op + len];
    assert before <= r;
    forall i | op <= i < |r|
      ensures r[i] == r[i - 1]
    {
      assert r[i] == b;
      assert i > op ==> r[i - 1] == out[op + (i - 1 - op)];
    }
    PeriodicIsFeedForward(before, 1, r);
  }

  /** Append an element's bytes at `op`. */
  method Produce(e: Element, out: array<Byte>, op: nat)
    requires op + Length(e) <= out.Length && Applies(e, out[..op])
    modifies out
    ensures out[..op + Length(e)] == Apply(e, old(out[..op]))
  {
    if e.Literal? {
      forall j | 0 <= j < |e.bytes| {
        out[op + j] := e.bytes[j];
      }
      assert out[..op + |e.bytes|] == old(out[..op]) + e.bytes;
    } else if e.offset == 1 {
      FillRun(out, op, e.len);
    } else {
      CopyChunks(out, op, e.offset, e.len);
    }
  }

  lemma DecodedLength(input: Bytes, ip: nat, out: Bytes)
    requires ip <= |input| && Decoded(input, ip, out).Some?
    ensures |out| <= |Decoded(input, ip, out).value|
    decreases |input| - ip
  {
    if ip < |input| {
      var e := ElementAt(input, ip);
      DecodedLength(input, e.value.1, Apply(e.value.0, out));
    }
  }

  /** Decompress a well-formed block into `scratch` when it is large enough: exactly the content the byte-by-byte definition gives,
      or an error when that is not as long as announced. An element that does not fit the buffer makes the lengths differ. */
  method Uncompress(input: Bytes, scratch: array?<Byte>) returns (r: Option<Bytes>)
    requires Content(input).Some?
    modifies scratch
    ensures var (n, content) := Content(input).value; r == if n == |content| then Some(content) else None
    ensures forall n: nat, ws: seq<Wire> :: n < WORD && (forall w :: w in ws ==> Writable(w)) && input == Stream(n, ws) ==>
      Produced([], ws).Some? && r == if n == |Produced([], ws).value| then Produced([], ws) else None
  {
    hide ElementAt, Apply, Produced, Stream;
    forall n: nat, ws: seq<Wire> | n < WORD && (forall w :: w in ws ==> Writable(w)) && input == Stream(n, ws)
      ensures Produced([], ws).Some? && Content(input) == Some((n, Produced([], ws).value))
    {
      StreamContent(n, ws);
    }
    var header := ReadVarint(input, 0);
    var outLen, ip := header.value.0, header.value.1;
    var content := Content(input).value.1;
    var out: array<Byte>;
    if scratch != null && scratch.Length >= outLen {
      out := scratch;
    } else {
      out := new Byte[outLen];
    }
    var op: nat := 0;
    assert out[..0] == [];
    while ip < |input|
      invariant ip <= |input| && op <= out.Length && (out == scratch || fresh(out))
      invariant Decoded(input, ip, out[..op]) == Some(content)
      decreases |input| - ip
    {
      var e := ElementAt(input, ip);
      ghost var next := Apply(e.value.0, out[..op]);
      DecodedLength(input, e.value.1, next);
      if op + Length(e.value.0) > out.Length {
        return None;
      }
      Produce(e.value.0, out, op);
      op, ip := op + Length(e.value.0), e.value.1;
    }
    r := if op == outLen then Some(out[..op]) else None;
  }
}
