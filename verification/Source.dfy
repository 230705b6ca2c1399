/** A loaded snapshot of the log (live records grouped by object store) and what a schema mapping reads from it. */
module Source {
  import opened Base
  import opened Tables
  import Sorting

  type Bytes = seq<Byte>

  /** A surviving record: its user key, its sequence number and its encoded value. */
  datatype Rec = Rec(key: Bytes, seqNo: nat, value: Bytes)

  /** Catalog entry of one "dbId:osId" store. */
  datatype StoreName = StoreName(db: Option<string>, store: string)

  datatype Snapshot = Snapshot(buckets: map<string, seq<Rec>>, catalog: map<string, StoreName>, maxSeq: nat, lossy: bool)

  datatype Entity = MessageEntity | ConversationEntity | ProfileEntity | EventEntity | CallEntity

  datatype ConvMeta = ConvMeta(id: string, topic: Option<string>, teamId: Option<string>,
                               threadType: Option<string>, metaLastTs: int)

  /** A profiles, events or calls row: its primary key and its other columns. */
  datatype Row = Row(id: string, columns: seq<Option<string>>)

  /** A schema mapping: which stores an entity lives in, the pure decode-and-shape of one
      record, and the vote that elects the current user from the message records. */
  datatype Mapping = Mapping(
    selects: (Entity, StoreName) -> bool,
    messages: (Bytes, Option<string>) -> seq<Message>,
    conversations: Bytes -> seq<ConvMeta>,
    rows: (Entity, Rec) -> seq<Row>,
    vote: seq<Rec> -> Option<string>)

  // ---- hex chain keys ----

  function HexDigit(n: int): char
    requires 0 <= n < 16
  {
    "0123456789abcdef"[n]
  }

  function ToHex(b: Bytes): string {
    if b == [] then "" else [HexDigit(b[0] / 16), HexDigit(b[0] % 16)] + ToHex(b[1..])
  }

  lemma HexByteInjective(a: Byte, b: Byte)
    requires HexDigit(a / 16) == HexDigit(b / 16) && HexDigit(a % 16) == HexDigit(b % 16)
    ensures a == b
  {
    var digits := "0123456789abcdef";
    assert forall i, j :: 0 <= i < j < 16 ==> digits[i] != digits[j];
  }

  /** Distinct record keys have distinct chain keys, so the chain_key column identifies the record. */
  lemma {:induction false} ToHexInjective(a: Bytes, b: Bytes)
    requires ToHex(a) == ToHex(b)
    ensures a == b
  {
    if a != [] && b != [] {
      ToHexHead(a);
      ToHexHead(b);
      HexByteInjective(a[0], b[0]);
      ToHexInjective(a[1..], b[1..]);
      assert a == [a[0]] + a[1..] && b == [b[0]] + b[1..];
    }
  }

  lemma ToHexHead(a: Bytes)
    requires a != []
    ensures |ToHex(a)| >= 2 && ToHex(a)[0] == HexDigit(a[0] / 16) && ToHex(a)[1] == HexDigit(a[0] % 16)
    ensures ToHex(a)[2..] == ToHex(a[1..])
  {
  }

  // ---- substring tests and the id-derived conversation kind ----

  predicate StartsAt(s: string, sub: string, i: int) {
    0 <= i <= |s| && sub <= s[i..]
  }

  predicate Includes(s: string, sub: string) {
    exists i | 0 <= i <= |s| :: StartsAt(s, sub, i)
  }

  function ConvKind(id: string): string {
    if Includes(id, "@unq.gbl.spaces") then "1:1"
    else if Includes(id, "meeting_") then "meeting"
    else if Includes(id, "@thread.v2") then "group"
    else if Includes(id, "@thread.skype") || Includes(id, "@thread.tacv2") then "channel"
    else "other"
  }

  // ---- extraction ----

  /** The stores an entity is read from, in order. */
  function TargetSet(mapping: Mapping, snap: Snapshot, e: Entity): set<string> {
    set sk | sk in snap.catalog && snap.catalog[sk].db.Some? && mapping.selects(e, snap.catalog[sk])
  }

  function Targets(mapping: Mapping, snap: Snapshot, e: Entity): seq<string> {
    Sorting.TextOrder();
    Sorting.OrderBy(Sorting.TextLess, TargetSet(mapping, snap, e))
  }

  function Bucket(snap: Snapshot, sk: string): seq<Rec> {
    if sk in snap.buckets then snap.buckets[sk] else []
  }

  /** The records of the given stores, store by store, each in bucket order. */
  function Records(snap: Snapshot, targets: seq<string>): seq<Rec> {
    if targets == [] then [] else Records(snap, targets[..|targets| - 1]) + Bucket(snap, targets[|targets| - 1])
  }

  /** Rows without a conversation id are skipped; the row carries its record's key and its kind. */
  function ShapeMessages(bodies: seq<Message>, chainKey: string): seq<Message> {
    if bodies == [] then []
    else
      var rest := ShapeMessages(bodies[..|bodies| - 1], chainKey);
      var b := bodies[|bodies| - 1];
      if b.convId == "" then rest else rest + [b.(chainKey := chainKey, kind := ConvKind(b.convId))]
  }

  function MessagesOf(mapping: Mapping, self: Option<string>, r: Rec): seq<Message> {
    ShapeMessages(mapping.messages(r.value, self), ToHex(r.key))
  }

  function MessageRows(mapping: Mapping, self: Option<string>, recs: seq<Rec>): seq<Message> {
    if recs == [] then []
    else MessageRows(mapping, self, recs[..|recs| - 1]) + MessagesOf(mapping, self, recs[|recs| - 1])
  }

  lemma {:induction false} ShapeMessagesFacts(bodies: seq<Message>, chainKey: string)
    ensures forall m :: m in ShapeMessages(bodies, chainKey) ==>
      m.chainKey == chainKey && m.convId != "" && m.kind == ConvKind(m.convId)
  {
    if bodies != [] {
      ShapeMessagesFacts(bodies[..|bodies| - 1], chainKey);
    }
  }

  lemma {:induction false} MessageRowsFacts(mapping: Mapping, self: Option<string>, recs: seq<Rec>)
    ensures forall m :: m in MessageRows(mapping, self, recs) ==>
      && m.convId != "" && m.kind == ConvKind(m.convId)
      && exists r :: r in recs && m.chainKey == ToHex(r.key) && m in MessagesOf(mapping, self, r)
  {
    if recs != [] {
      var n := |recs| - 1;
      MessageRowsFacts(mapping, self, recs[..n]);
      assert recs == recs[..n] + [recs[n]];
      ShapeMessagesFacts(mapping.messages(recs[n].value, self), ToHex(recs[n].key));
    }
  }

  lemma {:induction false} MessageRowsOf(mapping: Mapping, self: Option<string>, recs: seq<Rec>, r: Rec)
    requires r in recs
    ensures forall m :: m in MessagesOf(mapping, self, r) ==> m in MessageRows(mapping, self, recs)
  {
    var n := |recs| - 1;
    if r != recs[n] {
      assert recs == recs[..n] + [recs[n]];
      MessageRowsOf(mapping, self, recs[..n], r);
    }
  }

  lemma MessageRowsSnoc(mapping: Mapping, self: Option<string>, p: seq<Rec>, r: Rec)
    ensures MessageRows(mapping, self, p + [r]) == MessageRows(mapping, self, p) + MessagesOf(mapping, self, r)
  {
    TakeAppend(p, r);
  }

  ghost predicate DistinctKeys(recs: seq<Rec>) {
    forall i, j :: 0 <= i < j < |recs| ==> recs[i].key != recs[j].key
  }

  /** However stores are combined, no key has two records. */
  ghost predicate OnePerKey(snap: Snapshot) {
    forall targets :: NoDup(targets) ==> DistinctKeys(Records(snap, targets))
  }
}
