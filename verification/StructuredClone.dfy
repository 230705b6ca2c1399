/** The Blink/V8 structured-clone decoder, twice: with a table of decoded values for the back-references, and replaying the
    referenced bytes instead. */
module StructuredClone {
  import opened Base
  import opened Source
  import opened Varints
  import Decimal

  datatype Value =
    | Undefined
    | Null
    | Bool(b: bool)
    | Num(n: int)
    | Double(bits: Bytes)
    | Date(bits: Bytes)
    | Str(s: string)
    | Buffer(bytes: Bytes)
    | Object(props: seq<(string, Value)>)
    | Array(items: seq<Value>, props: seq<(string, Value)>)

  /** Text and number formats left to the platform. */
  datatype Codecs = Codecs(utf8: Bytes -> string, utf16: Bytes -> string, integral: Bytes -> Option<int>, number: Bytes -> string)

  // ---- bytes ----

  function SkipPadding(buf: Bytes, pos: nat): (p: nat)
    ensures pos <= p && (pos <= |buf| ==> p <= |buf|)
    decreases |buf| - pos
  {
    if pos < |buf| && buf[pos] == 0 then SkipPadding(buf, pos + 1) else pos
  }

  /** `count` varints whose values are not needed. */
  function SkipVarints(buf: Bytes, pos: nat, count: nat): (r: Option<nat>)
    ensures r.Some? ==> pos <= r.value && (count > 0 ==> r.value <= |buf|)
    decreases count
  {
    if count == 0 then Some(pos)
    else
      var v := ReadVarint(buf, pos);
      if v.None? then None else SkipVarints(buf, v.value.1, count - 1)
  }

  /** A varint length and that many bytes. */
  function ReadBytes(buf: Bytes, pos: nat): (r: Option<(Bytes, nat)>)
    ensures r.Some? ==> pos < r.value.1 <= |buf|
  {
    var n := ReadVarint(buf, pos);
    if n.None? || n.value.1 + n.value.0 > |buf| then None
    else Some((buf[n.value.1..n.value.1 + n.value.0], n.value.1 + n.value.0))
  }

  function Zigzag(v: nat): int {
    if v % 2 == 0 then v / 2 else -(v / 2) - 1
  }

  function Latin1(b: Bytes): string {
    seq(|b|, i requires 0 <= i < |b| => b[i] as char)
  }

  /** The tags that hold no other value and take no receiver id. */
  function Leaf(c: Codecs, buf: Bytes, pos: nat, tag: Byte): (r: Option<(Value, nat)>)
    requires pos <= |buf|
    ensures r.Some? ==> pos <= r.value.1 <= |buf|
  {
    if tag == 0x5f then Some((Undefined, pos))
    else if tag == 0x30 then Some((Null, pos))
    else if tag == 0x54 || tag == 0x79 then Some((Bool(true), pos))
    else if tag == 0x46 || tag == 0x78 then Some((Bool(false), pos))
    else if tag == 0x49 || tag == 0x55 then
      var v := ReadVarint(buf, pos);
      if v.None? then None else Some((Num(if tag == 0x49 then Zigzag(v.value.0) else v.value.0), v.value.1))
    else if tag == 0x4e || tag == 0x6e || tag == 0x44 then
      if pos + 8 > |buf| then None
      else if tag == 0x44 then Some((Date(buf[pos..pos + 8]), pos + 8))
      else
        var n := c.integral(buf[pos..pos + 8]);
        Some((if n.Some? then Num(n.value) else Double(buf[pos..pos + 8]), pos + 8))
    else if tag == 0x22 || tag == 0x63 || tag == 0x53 then
      var b := ReadBytes(buf, pos);
      if b.None? then None
      else Some((Str(if tag == 0x22 then Latin1(b.value.0) else if tag == 0x63 then c.utf16(b.value.0) else c.utf8(b.value.0)), b.value.1))
    else None
  }

  // ---- containers ----

  datatype Kind = ObjectKind | DenseKind | SparseKind | MapKind | SetKind

  function KindOf(tag: Byte): Option<Kind> {
    if tag == 0x6f then Some(ObjectKind)
    else if tag == 0x41 then Some(DenseKind)
    else if tag == 0x61 then Some(SparseKind)
    else if tag == 0x3b then Some(MapKind)
    else if tag == 0x27 then Some(SetKind)
    else None
  }

  predicate HasLength(k: Kind) {
    k == DenseKind || k == SparseKind
  }

  /** The tag that ends the container. */
  function Stop(k: Kind): Byte {
    match k
    case ObjectKind => 0x7b
    case DenseKind => 0x24
    case SparseKind => 0x40
    case MapKind => 0x3a
    case SetKind => 0x2c
  }

  /** Values per entry: a set lists values, the others key and value. */
  function Arity(k: Kind): nat {
    if k == SetKind then 1 else 2
  }

  /** Varints after the end tag. */
  function Trailer(k: Kind): nat {
    if HasLength(k) then 2 else 1
  }

  function KeyText(c: Codecs, v: Value): Option<string> {
    match v
    case Str(s) => Some(s)
    case Num(n) => Some(Decimal.IntText(n))
    case Double(bits) => Some(c.number(bits))
    case _ => None
  }

  function AnyKeyText(c: Codecs, v: Value): string {
    if KeyText(c, v).Some? then KeyText(c, v).value
    else
      match v
      case Bool(b) => if b then "true" else "false"
      case Null => "null"
      case Undefined => "undefined"
      case _ => "[object Object]"
  }

  /** `obj[k] = v`: a known key keeps its place. */
  function SetProp(props: seq<(string, Value)>, k: string, v: Value): seq<(string, Value)> {
    if props == [] then [(k, v)]
    else if props[0].0 == k then [(k, v)] + props[1..]
    else [props[0]] + SetProp(props[1..], k, v)
  }

  /** A property key is an array index iff it is the canonical numeral of a number below 2^32 - 1. */
  function ArrayIndex(v: Value): Option<nat> {
    match v
    case Num(n) => if 0 <= n < 0xffff_ffff then Some(n) else None
    case Str(s) =>
      if s != "" && Decimal.AllDigits(s) && Decimal.Value(s) < 0xffff_ffff && Decimal.Digits(Decimal.Value(s)) == s
      then Some(Decimal.Value(s)) else None
    case _ => None
  }

  function Undefineds(n: nat): seq<Value> {
    seq(n, i => Undefined)
  }

  /** `arr[key] = v`: an index lands in the items, growing them with holes; another key is a property. */
  function SetElem(c: Codecs, a: Value, key: Value, v: Value): Value
    requires a.Array?
  {
    var i := ArrayIndex(key);
    if i.Some? then
      var items := if i.value < |a.items| then a.items else a.items + Undefineds(i.value + 1 - |a.items|);
      Array(items[i.value := v], a.props)
    else
      var k := KeyText(c, key);
      if k.Some? then Array(a.items, SetProp(a.props, k.value, v)) else a
  }

  predicate Fits(k: Kind, v: Value) {
    if k == ObjectKind || k == MapKind then v.Object? else v.Array?
  }

  /** One more entry of a container under construction. */
  function AddEntry(c: Codecs, k: Kind, v: Value, entry: seq<Value>): (r: Value)
    requires |entry| == Arity(k) && Fits(k, v)
    ensures Fits(k, r)
  {
    match k
    case SetKind => Array(v.items + [entry[0]], v.props)
    case MapKind => Object(SetProp(v.props, AnyKeyText(c, entry[0]), entry[1]))
    case ObjectKind =>
      var key := KeyText(c, entry[0]);
      if key.Some? then Object(SetProp(v.props, key.value, entry[1])) else v
    case _ => SetElem(c, v, entry[0], entry[1])
  }

  /** What the entries are added to. */
  function Empty(k: Kind, length: nat, items: seq<Value>): (r: Value)
    ensures Fits(k, r)
  {
    match k
    case ObjectKind => Object([])
    case MapKind => Object([])
    case SparseKind => Array(Undefineds(length), [])
    case DenseKind => Array(items, [])
    case SetKind => Array([], [])
  }

  // ---- the replaying decoder ----

  const CAP := 1024

  datatype Result<+T> = Ok(value: T, pos: nat, objects: seq<nat>) | Err

  /** A receiver id is reserved on the forward pass only. */
  function Register(objects: seq<nat>, off: nat, depth: nat): seq<nat> {
    if depth == 0 then objects + [off] else objects
  }

  function Left(buf: Bytes, pos: nat): nat {
    if pos <= |buf| then |buf| - pos else 0
  }

  function Decode(c: Codecs, buf: Bytes, pos: nat, objects: seq<nat>, depth: nat): (r: Result<Value>)
    requires depth <= CAP + 1
    ensures r.Ok? ==> pos < r.pos <= |buf| && (depth > 0 ==> r.objects == objects)
    decreases CAP + 1 - depth, Left(buf, pos), 0
  {
    var p := SkipPadding(buf, pos);
    if p >= |buf| then Err
    else if buf[p] == 0x5e then
      var id := ReadVarint(buf, p + 1);
      if id.None? || id.value.0 >= |objects| || depth > CAP then Err
      else
        var target := Decode(c, buf, objects[id.value.0], objects, depth + 1);
        if target.Err? then Err else Ok(target.value, id.value.1, objects)
    else if buf[p] == 0x73 then Decode(c, buf, p + 1, objects, depth)
    else if buf[p] == 0x42 then
      var b := ReadBytes(buf, p + 1);
      if b.None? then Err else Ok(Buffer(b.value.0), b.value.1, Register(objects, p, depth))
    else if KindOf(buf[p]).Some? then DecodeContainer(c, buf, p, KindOf(buf[p]).value, objects, depth)
    else
      var leaf := Leaf(c, buf, p + 1, buf[p]);
      if leaf.None? then Err else Ok(leaf.value.0, leaf.value.1, objects)
  }

  /** The container whose tag is at `p`. */
  function DecodeContainer(c: Codecs, buf: Bytes, p: nat, k: Kind, objects: seq<nat>, depth: nat): (r: Result<Value>)
    requires depth <= CAP + 1 && p < |buf|
    ensures r.Ok? ==> p < r.pos <= |buf| && (depth > 0 ==> r.objects == objects)
    decreases CAP + 1 - depth, Left(buf, p + 1), 4
  {
    var length := if HasLength(k) then ReadVarint(buf, p + 1) else Some((0, p + 1));
    if length.None? then Err else DecodeBody(c, buf, length.value.1, k, length.value.0, Register(objects, p, depth), depth)
  }

  /** What follows a container's tag and length. */
  function DecodeBody(c: Codecs, buf: Bytes, pos: nat, k: Kind, length: nat, objects: seq<nat>, depth: nat): (r: Result<Value>)
    requires depth <= CAP + 1 && pos <= |buf|
    ensures r.Ok? ==> pos < r.pos <= |buf| && (depth > 0 ==> r.objects == objects)
    decreases CAP + 1 - depth, Left(buf, pos), 3
  {
    var items := DecodeValues(c, buf, pos, objects, depth, if k == DenseKind then length else 0);
    if items.Err? then Err
    else
      var whole := DecodeEntries(c, buf, items.pos, items.objects, depth, k, Empty(k, length, items.value));
      if whole.Err? then Err
      else
        var end := SkipVarints(buf, whole.pos + 1, Trailer(k));
        if end.None? then Err else Ok(whole.value, end.value, whole.objects)
  }

  /** `count` values in a row. */
  function DecodeValues(c: Codecs, buf: Bytes, pos: nat, objects: seq<nat>, depth: nat, count: nat): (r: Result<seq<Value>>)
    requires depth <= CAP + 1 && pos <= |buf|
    ensures r.Ok? ==> pos <= r.pos <= |buf| && |r.value| == count && (count > 0 ==> pos < r.pos) && (depth > 0 ==> r.objects == objects)
    decreases CAP + 1 - depth, Left(buf, pos), 1, count
  {
    if count == 0 then Ok([], pos, objects)
    else
      var first := Decode(c, buf, pos, objects, depth);
      if first.Err? then Err
      else
        var rest := DecodeValues(c, buf, first.pos, first.objects, depth, count - 1);
        if rest.Err? then Err else Ok([first.value] + rest.value, rest.pos, rest.objects)
  }

  /** Entries up to the end tag, which is left unread, added to `v`. */
  function DecodeEntries(c: Codecs, buf: Bytes, pos: nat, objects: seq<nat>, depth: nat, k: Kind, v: Value): (r: Result<Value>)
    requires depth <= CAP + 1 && pos <= |buf| && Fits(k, v)
    ensures r.Ok? ==> pos <= r.pos < |buf| && Fits(k, r.value) && (depth > 0 ==> r.objects == objects)
    decreases CAP + 1 - depth, Left(buf, pos), 2
  {
    var p := SkipPadding(buf, pos);
    if p >= |buf| then Err
    else if buf[p] == Stop(k) then Ok(v, p, objects)
    else
      var entry := DecodeValues(c, buf, p, objects, depth, Arity(k));
      if entry.Err? then Err
      else DecodeEntries(c, buf, entry.pos, entry.objects, depth, k, AddEntry(c, k, v, entry.value))
  }

  // ---- the decoder with a table of values ----

  /** A completed container and how deeply references nest inside it. */
  datatype Completed = Completed(value: Value, rank: nat)

  /** A receiver id's container: where its tag is, and its value once it is complete. */
  datatype Slot = Slot(off: nat, done: Option<Completed>)
  type Table = seq<Slot>

  /** `OutOfRange` and `Cyclic`: a reference to no container, and to one still being read. */
  datatype Failure = Malformed | OutOfRange | Cyclic
  datatype Outcome<+T> = Done(value: T, pos: nat, table: Table, rank: nat) | Failed(why: Failure, table: Table)

  function Offsets(t: Table): (r: seq<nat>)
    ensures |r| == |t|
  {
    seq(|t|, i requires 0 <= i < |t| => t[i].off)
  }

  predicate AllDone(t: Table, from: nat) {
    forall i :: from <= i < |t| ==> t[i].done.Some?
  }

  function Read(c: Codecs, buf: Bytes, pos: nat, table: Table): (r: Outcome<Value>)
    ensures r.Done? ==> pos < r.pos <= |buf|
    ensures table <= r.table && (r.Done? ==> AllDone(r.table, |table|))
    decreases Left(buf, pos), 0
  {
    var p := SkipPadding(buf, pos);
    if p >= |buf| then Failed(Malformed, table)
    else if buf[p] == 0x5e then
      var id := ReadVarint(buf, p + 1);
      if id.None? then Failed(Malformed, table)
      else if id.value.0 >= |table| then Failed(OutOfRange, table)
      else
        var target := table[id.value.0].done;
        if target.None? then Failed(Cyclic, table) else Done(target.value.value, id.value.1, table, target.value.rank + 1)
    else if buf[p] == 0x73 then Read(c, buf, p + 1, table)
    else if buf[p] == 0x42 then
      var b := ReadBytes(buf, p + 1);
      if b.None? then Failed(Malformed, table)
      else Done(Buffer(b.value.0), b.value.1, table + [Slot(p, Some(Completed(Buffer(b.value.0), 0)))], 0)
    else if KindOf(buf[p]).Some? then ReadContainer(c, buf, p, KindOf(buf[p]).value, table)
    else
      var leaf := Leaf(c, buf, p + 1, buf[p]);
      if leaf.None? then Failed(Malformed, table) else Done(leaf.value.0, leaf.value.1, table, 0)
  }

  function ReadContainer(c: Codecs, buf: Bytes, p: nat, k: Kind, table: Table): (r: Outcome<Value>)
    requires p < |buf|
    ensures r.Done? ==> p < r.pos <= |buf|
    ensures table <= r.table && (r.Done? ==> AllDone(r.table, |table|))
    decreases Left(buf, p + 1), 3
  {
    var length := if HasLength(k) then ReadVarint(buf, p + 1) else Some((0, p + 1));
    if length.None? then Failed(Malformed, table)
    else
      var count := if k == DenseKind then length.value.0 else 0;
      var entered := table + [Slot(p, None)];
      assert table <= entered && |entered| == |table| + 1;
      var items := ReadValues(c, buf, length.value.1, entered, count);
      if items.Failed? then Failed(items.why, items.table)
      else
        var whole := ReadEntries(c, buf, items.pos, items.table, k, Empty(k, length.value.0, items.value));
        if whole.Failed? then Failed(whole.why, whole.table) else Closed(buf, k, table, items.table, items.rank, whole)
  }

  /** The end tag and its varints; the container's slot comes right after `table`. */
  function Closed(buf: Bytes, k: Kind, table: Table, listed: Table, rank: nat, whole: Outcome<Value>): (r: Outcome<Value>)
    requires whole.Done? && whole.pos < |buf| && |table| < |listed| && table <= listed && listed <= whole.table
    requires AllDone(listed, |table| + 1) && AllDone(whole.table, |listed|)
    ensures r.Done? ==> whole.pos < r.pos <= |buf| && r.table == Complete(whole.table, |table|, Completed(r.value, r.rank))
    ensures r.Failed? ==> r.table == whole.table
    ensures table <= r.table && (r.Done? ==> AllDone(r.table, |table|))
  {
    var end := SkipVarints(buf, whole.pos + 1, Trailer(k));
    if end.None? then Failed(Malformed, whole.table)
    else
      var r := Max(rank, whole.rank);
      assert AllDone(whole.table, |table| + 1) by {
        assert forall i :: |table| < i < |listed| ==> whole.table[i] == listed[i];
      }
      Done(whole.value, end.value, Complete(whole.table, |table|, Completed(whole.value, r)), r)
  }

  function Complete(t: Table, i: nat, done: Completed): Table
    requires i < |t|
  {
    t[i := t[i].(done := Some(done))]
  }

  function ReadValues(c: Codecs, buf: Bytes, pos: nat, table: Table, count: nat): (r: Outcome<seq<Value>>)
    requires pos <= |buf|
    ensures r.Done? ==> pos <= r.pos <= |buf| && |r.value| == count && (count > 0 ==> pos < r.pos)
    ensures table <= r.table && (r.Done? ==> AllDone(r.table, |table|))
    decreases Left(buf, pos), 1, count
  {
    if count == 0 then Done([], pos, table, 0)
    else
      var first := Read(c, buf, pos, table);
      if first.Failed? then Failed(first.why, first.table)
      else
        var rest := ReadValues(c, buf, first.pos, first.table, count - 1);
        if rest.Failed? then Failed(rest.why, rest.table)
        else Done([first.value] + rest.value, rest.pos, rest.table, Max(first.rank, rest.rank))
  }

  function ReadEntries(c: Codecs, buf: Bytes, pos: nat, table: Table, k: Kind, v: Value): (r: Outcome<Value>)
    requires pos <= |buf| && Fits(k, v)
    ensures r.Done? ==> pos <= r.pos < |buf| && Fits(k, r.value)
    ensures table <= r.table && (r.Done? ==> AllDone(r.table, |table|))
    decreases Left(buf, pos), 2
  {
    var p := SkipPadding(buf, pos);
    if p >= |buf| then Failed(Malformed, table)
    else if buf[p] == Stop(k) then Done(v, p, table, 0)
    else
      var entry := ReadValues(c, buf, p, table, Arity(k));
      if entry.Failed? then Failed(entry.why, entry.table)
      else
        var rest := ReadEntries(c, buf, entry.pos, entry.table, k, AddEntry(c, k, v, entry.value));
        if rest.Failed? then Failed(rest.why, rest.table) else Done(rest.value, rest.pos, rest.table, Max(entry.rank, rest.rank))
  }

  // ---- replaying bytes gives what the table holds ----

  /** The table `before` is what slot `i` was entered with, as far as its offsets tell. */
  ghost predicate Entered(before: Table, t: Table, i: nat) {
    i < |t| && |before| == i && Offsets(before) == Offsets(t)[..i]
  }

  /** Every completed slot holds what reading its bytes gives; if the read under way ends in a cyclic reference, with the table's
      offsets at that point in `cyclic`, so does reading any slot it is inside of. */
  ghost predicate Consistent(c: Codecs, buf: Bytes, t: Table, cyclic: Option<seq<nat>>)
    decreases |t|
  {
    forall i :: 0 <= i < |t| ==> SlotHolds(c, buf, t, i, cyclic)
  }

  ghost predicate SlotHolds(c: Codecs, buf: Bytes, t: Table, i: nat, cyclic: Option<seq<nat>>)
    requires i < |t|
    decreases |t|, 0
  {
    if t[i].done.Some? then exists before :: Entered(before, t, i) && Consistent(c, buf, before, None) && Gives(c, buf, before, t, i)
    else cyclic.Some? ==> exists before ::
      Entered(before, t, i) && Consistent(c, buf, before, cyclic) && Cycles(c, buf, before, t[i].off, cyclic.value)
  }

  ghost predicate Gives(c: Codecs, buf: Bytes, before: Table, t: Table, i: nat)
    requires i < |t| && t[i].done.Some?
  {
    var r := Read(c, buf, t[i].off, before);
    r.Done? && r.value == t[i].done.value.value && r.rank == t[i].done.value.rank && Offsets(r.table) <= Offsets(t)
  }

  ghost predicate Cycles(c: Codecs, buf: Bytes, before: Table, off: nat, offsets: seq<nat>) {
    var r := Read(c, buf, off, before);
    r.Failed? && r.why == Cyclic && Offsets(r.table) == offsets
  }

  lemma OffsetsOf(t: Table, u: Table)
    ensures t <= u ==> Offsets(t) <= Offsets(u)
    ensures forall i :: 0 <= i < |t| ==> Offsets(t[i := t[i].(done := None)]) == Offsets(t)
  {
    if t <= u {
      assert forall i :: 0 <= i < |t| ==> t[i] == u[i];
    }
  }

  lemma CompleteOffsets(t: Table, i: nat, done: Completed)
    requires i < |t|
    ensures Offsets(Complete(t, i, done)) == Offsets(t)
  {
  }

  /** A slot keeps what it holds while the table grows. */
  lemma HoldsStays(c: Codecs, buf: Bytes, t: Table, u: Table, i: nat, cyclic: Option<seq<nat>>)
    requires i < |t| && Offsets(t) <= Offsets(u) && t[i] == u[i] && SlotHolds(c, buf, t, i, cyclic)
    ensures SlotHolds(c, buf, u, i, cyclic)
  {
    assert Offsets(t)[..i] == Offsets(u)[..i];
    if t[i].done.Some? {
      var before :| Entered(before, t, i) && Consistent(c, buf, before, None) && Gives(c, buf, before, t, i);
      assert Entered(before, u, i) && Gives(c, buf, before, u, i);
    } else if cyclic.Some? {
      var before :| Entered(before, t, i) && Consistent(c, buf, before, cyclic) && Cycles(c, buf, before, t[i].off, cyclic.value);
      assert Entered(before, u, i);
    }
  }

  lemma ConsistentAt(c: Codecs, buf: Bytes, t: Table, cyclic: Option<seq<nat>>)
    requires Consistent(c, buf, t, cyclic)
    ensures forall i :: 0 <= i < |t| ==> SlotHolds(c, buf, t, i, cyclic)
  {
  }

  lemma Weaken(c: Codecs, buf: Bytes, t: Table, cyclic: Option<seq<nat>>)
    requires Consistent(c, buf, t, cyclic)
    ensures Consistent(c, buf, t, None)
  {
    forall i | 0 <= i < |t|
      ensures SlotHolds(c, buf, t, i, None)
    {
      assert SlotHolds(c, buf, t, i, cyclic);
    }
  }

  /** The old slots hold what they held; new ones are complete, so cyclic references do not concern them. */
  lemma GrownHolds(c: Codecs, buf: Bytes, t: Table, u: Table, cyclic: Option<seq<nat>>)
    requires Consistent(c, buf, t, cyclic) && t <= u && AllDone(u, |t|)
    requires forall i :: |t| <= i < |u| ==> SlotHolds(c, buf, u, i, None)
    ensures Consistent(c, buf, u, cyclic)
  {
    OffsetsOf(t, u);
    forall i | 0 <= i < |u|
      ensures SlotHolds(c, buf, u, i, cyclic)
    {
      if i < |t| {
        assert SlotHolds(c, buf, t, i, cyclic);
        HoldsStays(c, buf, t, u, i, cyclic);
      } else {
        assert SlotHolds(c, buf, u, i, None);
      }
    }
  }

  /** Reserving a slot for a container. */
  lemma EnterHolds(c: Codecs, buf: Bytes, t: Table, p: nat, cyclic: Option<seq<nat>>)
    requires Consistent(c, buf, t, cyclic) && (cyclic.Some? ==> Cycles(c, buf, t, p, cyclic.value))
    ensures Consistent(c, buf, t + [Slot(p, None)], cyclic)
  {
    var u := t + [Slot(p, None)];
    OffsetsOf(t, u);
    forall i | 0 <= i < |u|
      ensures SlotHolds(c, buf, u, i, cyclic)
    {
      if i < |t| {
        assert SlotHolds(c, buf, t, i, cyclic);
        HoldsStays(c, buf, t, u, i, cyclic);
      } else {
        assert Entered(t, u, i);
      }
    }
  }

  /** Completing the slot a container reserved, or adding one already complete. */
  lemma CompleteHolds(c: Codecs, buf: Bytes, t: Table, cyclic: Option<seq<nat>>, u: Table)
    requires Consistent(c, buf, t, cyclic) && t <= u && AllDone(u, |t|) && |t| < |u| && Gives(c, buf, t, u, |t|)
    requires forall i :: |t| < i < |u| ==> SlotHolds(c, buf, u, i, None)
    ensures Consistent(c, buf, u, cyclic)
  {
    Weaken(c, buf, t, cyclic);
    OffsetsOf(t, u);
    assert Entered(t, u, |t|);
    assert SlotHolds(c, buf, u, |t|, None);
    GrownHolds(c, buf, t, u, cyclic);
  }

  /** What replaying must give when the table decoder gives `r`: the same value, end and ids while references nest no deeper than
      the cap, and an error otherwise. */
  ghost predicate Agrees<T(!new)>(d: Result<T>, r: Outcome<T>, objects: seq<nat>, depth: nat) {
    if r.Done? then d == if depth + r.rank <= CAP + 1 then Ok(r.value, r.pos, if depth == 0 then Offsets(r.table) else objects) else Err
    else d.Err? || (r.why == OutOfRange && depth > 0)
  }

  /** The ids known to the replay: exactly the table's on the forward pass, at least those met when replaying. */
  ghost predicate Knows<T(!new)>(objects: seq<nat>, depth: nat, t: Table, r: Outcome<T>) {
    if depth == 0 then objects == Offsets(t) else Offsets(r.table) <= objects
  }

  ghost predicate InCycle<T(!new)>(r: Outcome<T>, cyclic: Option<seq<nat>>) {
    r.Failed? && r.why == Cyclic ==> cyclic == Some(Offsets(r.table))
  }

  lemma ReplayValue(c: Codecs, buf: Bytes, pos: nat, t: Table, objects: seq<nat>, depth: nat, cyclic: Option<seq<nat>>)
    requires depth <= CAP + 1 && Consistent(c, buf, t, cyclic)
    requires Knows(objects, depth, t, Read(c, buf, pos, t)) && InCycle(Read(c, buf, pos, t), cyclic)
    ensures Agrees(Decode(c, buf, pos, objects, depth), Read(c, buf, pos, t), objects, depth)
    ensures Read(c, buf, pos, t).Done? ==> Consistent(c, buf, Read(c, buf, pos, t).table, cyclic)
    decreases CAP + 1 - depth, Left(buf, pos), 0
  {
    hide Consistent, Leaf, ReadVarint, ReadBytes, DecodeContainer, ReadContainer;
    var p := SkipPadding(buf, pos);
    if p < |buf| {
      if buf[p] == 0x5e {
        ReplayReference(c, buf, pos, t, objects, depth, cyclic);
      } else if buf[p] == 0x73 {
        ReplayValue(c, buf, p + 1, t, objects, depth, cyclic);
      } else if buf[p] == 0x42 {
        var b := ReadBytes(buf, p + 1);
        if b.Some? {
          var u := t + [Slot(p, Some(Completed(Buffer(b.value.0), 0)))];
          OffsetsOf(t, u);
          assert Read(c, buf, p, t) == Read(c, buf, pos, t);
          CompleteHolds(c, buf, t, cyclic, u);
          assert Offsets(u) == Offsets(t) + [p];
        }
      } else if KindOf(buf[p]).Some? {
        ReplayContainer(c, buf, p, KindOf(buf[p]).value, t, objects, depth, cyclic);
      }
    }
  }

  lemma ReplayReference(c: Codecs, buf: Bytes, pos: nat, t: Table, objects: seq<nat>, depth: nat, cyclic: Option<seq<nat>>)
    requires depth <= CAP + 1 && Consistent(c, buf, t, cyclic)
    requires SkipPadding(buf, pos) < |buf| && buf[SkipPadding(buf, pos)] == 0x5e
    requires Knows(objects, depth, t, Read(c, buf, pos, t)) && InCycle(Read(c, buf, pos, t), cyclic)
    ensures Agrees(Decode(c, buf, pos, objects, depth), Read(c, buf, pos, t), objects, depth)
    decreases CAP + 1 - depth, Left(buf, pos), 0, 0
  {
    hide ReadVarint, ReadContainer, DecodeContainer, Consistent, Leaf, ReadBytes, KindOf;
    ConsistentAt(c, buf, t, cyclic);
    var p := SkipPadding(buf, pos);
    var id := ReadVarint(buf, p + 1);
    if id.Some? && id.value.0 < |t| && depth <= CAP {
      var i := id.value.0;
      assert Offsets(t) <= objects && objects[i] == Offsets(t)[i] == t[i].off;
      assert SlotHolds(c, buf, t, i, cyclic);
      if t[i].done.Some? {
        var before :| Entered(before, t, i) && Consistent(c, buf, before, None) && Gives(c, buf, before, t, i);
        ReplayValue(c, buf, t[i].off, before, objects, depth + 1, None);
      } else {
        var before :| Entered(before, t, i) && Consistent(c, buf, before, cyclic) && Cycles(c, buf, before, t[i].off, cyclic.value);
        ReplayValue(c, buf, t[i].off, before, objects, depth + 1, cyclic);
      }
    }
  }

  lemma ReplayContainer(c: Codecs, buf: Bytes, p: nat, k: Kind, t: Table, objects: seq<nat>, depth: nat, cyclic: Option<seq<nat>>)
    requires depth <= CAP + 1 && Consistent(c, buf, t, cyclic) && p < |buf| && buf[p] != 0 && KindOf(buf[p]) == Some(k)
    requires Knows(objects, depth, t, ReadContainer(c, buf, p, k, t)) && InCycle(ReadContainer(c, buf, p, k, t), cyclic)
    ensures Agrees(DecodeContainer(c, buf, p, k, objects, depth), ReadContainer(c, buf, p, k, t), objects, depth)
    ensures ReadContainer(c, buf, p, k, t).Done? ==> Consistent(c, buf, ReadContainer(c, buf, p, k, t).table, cyclic)
    decreases CAP + 1 - depth, Left(buf, p + 1), 3
  {
    hide Consistent, ReadVarint, Decode, Read, DecodeValues, DecodeEntries, DecodeContainer, ReadValues, ReadEntries,
         SkipVarints, Empty,
         AllDone, KindOf, Agrees, Offsets, Register, HasLength;
    var r := ReadContainer(c, buf, p, k, t);
    ReadAt(c, buf, p, k, t);
    var length := if HasLength(k) then ReadVarint(buf, p + 1) else Some((0, p + 1));
    if length.None? {
      NoLength(c, buf, p, k, t, objects, depth);
    } else {
      var inside := if r.Failed? && r.why == Cyclic then cyclic else None;
      Weaken(c, buf, t, cyclic);
      EnterHolds(c, buf, t, p, inside);
      var entered := t + [Slot(p, None)];
      EnteredOffsets(t, p, objects, depth);
      PartOffsets(c, buf, p, k, t);
      var items := ItemsOf(c, buf, p, k, t, length.value);
      ReplayValues(c, buf, length.value.1, entered, Register(objects, p, depth), depth,
                   if k == DenseKind then length.value.0 else 0, inside);
      if items.Done? {
        var known := if depth == 0 then Offsets(items.table) else objects;
        var v := Empty(k, length.value.0, items.value);
        ReplayEntries(c, buf, items.pos, items.table, known, depth, k, v, inside);
        if r.Done? {
          var whole := ReadEntries(c, buf, items.pos, items.table, k, v);
          Weaken(c, buf, whole.table, inside);
          CloseHolds(c, buf, p, t, whole.table, r, cyclic);
        }
      }
      PartsAgree(c, buf, p, k, t, objects, depth, length.value);
    }
  }

  lemma EnteredOffsets(t: Table, p: nat, objects: seq<nat>, depth: nat)
    ensures Offsets(t + [Slot(p, None)]) == Offsets(t) + [p]
    ensures depth == 0 && objects == Offsets(t) ==> Register(objects, p, depth) == Offsets(t + [Slot(p, None)])
    ensures depth > 0 ==> Register(objects, p, depth) == objects
  {
  }

  lemma NoLength(c: Codecs, buf: Bytes, p: nat, k: Kind, t: Table, objects: seq<nat>, depth: nat)
    requires depth <= CAP + 1 && p < |buf| && HasLength(k) && ReadVarint(buf, p + 1).None?
    ensures Agrees(DecodeContainer(c, buf, p, k, objects, depth), ReadContainer(c, buf, p, k, t), objects, depth)
  {
  }

  /** The part results, combined. */
  lemma PartsAgree(c: Codecs, buf: Bytes, p: nat, k: Kind, t: Table, objects: seq<nat>, depth: nat, length: (nat, nat))
    requires depth <= CAP + 1 && p < |buf| && length.1 <= |buf|
    requires Some(length) == if HasLength(k) then ReadVarint(buf, p + 1) else Some((0, p + 1))
    requires ItemsAgree(c, buf, p, k, t, objects, depth, length)
    requires ItemsOf(c, buf, p, k, t, length).Done? ==> EntriesAgree(c, buf, p, k, t, objects, depth, length)
    ensures Agrees(DecodeContainer(c, buf, p, k, objects, depth), ReadContainer(c, buf, p, k, t), objects, depth)
  {
    hide ReadVarint, DecodeValues, DecodeEntries, ReadValues, ReadEntries, SkipVarints, Empty, AllDone, Offsets, HasLength;
    PartOffsets(c, buf, p, k, t);
  }

  ghost function ItemsOf(c: Codecs, buf: Bytes, p: nat, k: Kind, t: Table, length: (nat, nat)): Outcome<seq<Value>>
    requires length.1 <= |buf|
  {
    ReadValues(c, buf, length.1, t + [Slot(p, None)], if k == DenseKind then length.0 else 0)
  }

  ghost predicate ItemsAgree(c: Codecs, buf: Bytes, p: nat, k: Kind, t: Table, objects: seq<nat>, depth: nat, length: (nat, nat))
    requires depth <= CAP + 1 && length.1 <= |buf|
  {
    var count := if k == DenseKind then length.0 else 0;
    var known := Register(objects, p, depth);
    Agrees(DecodeValues(c, buf, length.1, known, depth, count), ItemsOf(c, buf, p, k, t, length), known, depth)
  }

  ghost predicate EntriesAgree(c: Codecs, buf: Bytes, p: nat, k: Kind, t: Table, objects: seq<nat>, depth: nat,
                               length: (nat, nat))
    requires depth <= CAP + 1 && length.1 <= |buf| && ItemsOf(c, buf, p, k, t, length).Done?
  {
    var items := ItemsOf(c, buf, p, k, t, length);
    var known := if depth == 0 then Offsets(items.table) else objects;
    var v := Empty(k, length.0, items.value);
    Agrees(DecodeEntries(c, buf, items.pos, known, depth, k, v), ReadEntries(c, buf, items.pos, items.table, k, v), known, depth)
  }

  lemma ReadAt(c: Codecs, buf: Bytes, p: nat, k: Kind, t: Table)
    requires p < |buf| && buf[p] != 0 && KindOf(buf[p]) == Some(k)
    ensures Read(c, buf, p, t) == ReadContainer(c, buf, p, k, t)
  {
    hide ReadContainer;
  }

  /** The tables met inside a container have offsets the final one starts with. */
  lemma PartOffsets(c: Codecs, buf: Bytes, p: nat, k: Kind, t: Table)
    requires p < |buf|
    ensures var length := if HasLength(k) then ReadVarint(buf, p + 1) else Some((0, p + 1));
      length.Some? ==>
        var items := ReadValues(c, buf, length.value.1, t + [Slot(p, None)], if k == DenseKind then length.value.0 else 0);
        && Offsets(items.table) <= Offsets(ReadContainer(c, buf, p, k, t).table)
        && (items.Done? ==>
          Offsets(ReadEntries(c, buf, items.pos, items.table, k, Empty(k, length.value.0, items.value)).table)
            == Offsets(ReadContainer(c, buf, p, k, t).table))
  {
    hide ReadVarint, ReadValues, ReadEntries, SkipVarints, Empty;
    var length := if HasLength(k) then ReadVarint(buf, p + 1) else Some((0, p + 1));
    if length.Some? {
      var items := ReadValues(c, buf, length.value.1, t + [Slot(p, None)], if k == DenseKind then length.value.0 else 0);
      if items.Done? {
        var whole := ReadEntries(c, buf, items.pos, items.table, k, Empty(k, length.value.0, items.value));
        OffsetsOf(items.table, whole.table);
        var r := ReadContainer(c, buf, p, k, t);
        if r.Done? {
          CompleteOffsets(whole.table, |t|, Completed(r.value, r.rank));
        }
      }
    }
  }

  lemma CloseHolds(c: Codecs, buf: Bytes, p: nat, t: Table, inside: Table, r: Outcome<Value>, cyclic: Option<seq<nat>>)
    requires Consistent(c, buf, t, cyclic) && Consistent(c, buf, inside, None) && t + [Slot(p, None)] <= inside
    requires Read(c, buf, p, t) == r && r.Done? && r.table == Complete(inside, |t|, Completed(r.value, r.rank)) && AllDone(r.table, |t|)
    ensures Consistent(c, buf, r.table, cyclic)
  {
    hide Read;
    CompleteOffsets(inside, |t|, Completed(r.value, r.rank));
    forall i | |t| < i < |r.table|
      ensures SlotHolds(c, buf, r.table, i, None)
    {
      assert SlotHolds(c, buf, inside, i, None);
      HoldsStays(c, buf, inside, r.table, i, None);
    }
    assert inside[|t|] == (t + [Slot(p, None)])[|t|];
    assert t <= r.table;
    CompleteHolds(c, buf, t, cyclic, r.table);
  }

  lemma ReplayValues(c: Codecs, buf: Bytes, pos: nat, t: Table, objects: seq<nat>, depth: nat, count: nat,
                     cyclic: Option<seq<nat>>)
    requires depth <= CAP + 1 && Consistent(c, buf, t, cyclic) && pos <= |buf|
    requires Knows(objects, depth, t, ReadValues(c, buf, pos, t, count)) && InCycle(ReadValues(c, buf, pos, t, count), cyclic)
    ensures Agrees(DecodeValues(c, buf, pos, objects, depth, count), ReadValues(c, buf, pos, t, count), objects, depth)
    ensures ReadValues(c, buf, pos, t, count).Done? ==> Consistent(c, buf, ReadValues(c, buf, pos, t, count).table, cyclic)
    decreases CAP + 1 - depth, Left(buf, pos), 1, count
  {
    hide Consistent, Decode, Read;
    if count > 0 {
      var first := Read(c, buf, pos, t);
      if first.Done? {
        var rest := ReadValues(c, buf, first.pos, first.table, count - 1);
        OffsetsOf(first.table, rest.table);
        ReplayValue(c, buf, pos, t, objects, depth, cyclic);
        var known := if depth == 0 then Offsets(first.table) else objects;
        ReplayValues(c, buf, first.pos, first.table, known, depth, count - 1, cyclic);
      } else {
        ReplayValue(c, buf, pos, t, objects, depth, cyclic);
      }
    }
  }

  lemma ReplayEntries(c: Codecs, buf: Bytes, pos: nat, t: Table, objects: seq<nat>, depth: nat, k: Kind, v: Value,
                      cyclic: Option<seq<nat>>)
    requires depth <= CAP + 1 && Consistent(c, buf, t, cyclic) && pos <= |buf| && Fits(k, v)
    requires Knows(objects, depth, t, ReadEntries(c, buf, pos, t, k, v)) && InCycle(ReadEntries(c, buf, pos, t, k, v), cyclic)
    ensures Agrees(DecodeEntries(c, buf, pos, objects, depth, k, v), ReadEntries(c, buf, pos, t, k, v), objects, depth)
    ensures ReadEntries(c, buf, pos, t, k, v).Done? ==> Consistent(c, buf, ReadEntries(c, buf, pos, t, k, v).table, cyclic)
    decreases CAP + 1 - depth, Left(buf, pos), 2
  {
    hide Consistent, DecodeValues, ReadValues, AddEntry, Offsets, AllDone, Agrees;
    var p := SkipPadding(buf, pos);
    if p < |buf| && buf[p] != Stop(k) {
      var entry := ReadValues(c, buf, p, t, Arity(k));
      EntryOffsets(c, buf, pos, t, k, v);
      ReplayValues(c, buf, p, t, objects, depth, Arity(k), cyclic);
      if entry.Done? {
        var known := if depth == 0 then Offsets(entry.table) else objects;
        ReplayEntries(c, buf, entry.pos, entry.table, known, depth, k, AddEntry(c, k, v, entry.value), cyclic);
      }
    }
    EntryAgrees(c, buf, pos, t, objects, depth, k, v);
  }

  lemma EntryOffsets(c: Codecs, buf: Bytes, pos: nat, t: Table, k: Kind, v: Value)
    requires pos <= |buf| && Fits(k, v) && SkipPadding(buf, pos) < |buf| && buf[SkipPadding(buf, pos)] != Stop(k)
    ensures Offsets(ReadValues(c, buf, SkipPadding(buf, pos), t, Arity(k)).table) <= Offsets(ReadEntries(c, buf, pos, t, k, v).table)
  {
    hide ReadValues, AddEntry;
    var entry := ReadValues(c, buf, SkipPadding(buf, pos), t, Arity(k));
    OffsetsOf(entry.table, ReadEntries(c, buf, pos, t, k, v).table);
  }

  /** One entry and the rest, combined. */
  lemma EntryAgrees(c: Codecs, buf: Bytes, pos: nat, t: Table, objects: seq<nat>, depth: nat, k: Kind, v: Value)
    requires depth <= CAP + 1 && pos <= |buf| && Fits(k, v) && (depth == 0 ==> objects == Offsets(t))
    requires var p := SkipPadding(buf, pos);
      p < |buf| && buf[p] != Stop(k) ==>
        var entry := ReadValues(c, buf, p, t, Arity(k));
        && Agrees(DecodeValues(c, buf, p, objects, depth, Arity(k)), entry, objects, depth)
        && (entry.Done? ==>
          var known := if depth == 0 then Offsets(entry.table) else objects;
          var w := AddEntry(c, k, v, entry.value);
          Agrees(DecodeEntries(c, buf, entry.pos, known, depth, k, w), ReadEntries(c, buf, entry.pos, entry.table, k, w), known, depth))
    ensures Agrees(DecodeEntries(c, buf, pos, objects, depth, k, v), ReadEntries(c, buf, pos, t, k, v), objects, depth)
  {
    hide DecodeValues, ReadValues, AddEntry, Offsets, AllDone;
  }

  /** Main result. Replaying a buffer from its first byte decodes it iff every reference in it names a container already complete
      and references nest at most 1025 deep; then value, end and id sequence are those of the table decoder. */
  lemma ReplayIsTable(c: Codecs, buf: Bytes, pos: nat)
    ensures var r := Read(c, buf, pos, []); var d := Decode(c, buf, pos, [], 0);
      && (d.Ok? <==> r.Done? && r.rank <= 1025)
      && (d.Ok? ==> d.value == r.value && d.pos == r.pos && d.objects == Offsets(r.table))
  {
    var r := Read(c, buf, pos, []);
    ReplayValue(c, buf, pos, [], [], 0, if r.Failed? && r.why == Cyclic then Some(Offsets(r.table)) else None);
  }
}
