/** The messages table as its rows in rowid order, the row-by-row upsert, and the full build's path:
    fold to winners in memory, then insert them in bulk. */
module MessageFold {
  import opened Base
  import opened Tables
  import opened Decimal

  const BULK_MSG_ROWS := 256

  ghost predicate UniqueKeys(t: seq<Message>) {
    forall i, j :: 0 <= i < j < |t| ==> KeyOf(t[i]) != KeyOf(t[j])
  }

  /** Position of the row with key `k`, or the length. */
  function Find(t: seq<Message>, k: Key): (i: nat)
    ensures i <= |t|
    ensures i < |t| ==> KeyOf(t[i]) == k
    ensures forall j :: 0 <= j < i ==> KeyOf(t[j]) != k
  {
    if t == [] then 0
    else
      var i := Find(t[..|t| - 1], k);
      if i < |t| - 1 then i else if KeyOf(t[|t| - 1]) == k then |t| - 1 else |t|
  }

  /** The version-guarded upsert: a new key goes last, an update keeps its place. */
  function UpsertRow(t: seq<Message>, m: Message): seq<Message> {
    var i := Find(t, KeyOf(m));
    if i == |t| then t + [m]
    else if m.version >= t[i].version then t[i := m]
    else t
  }

  function UpsertRows(t: seq<Message>, rows: seq<Message>): seq<Message> {
    if rows == [] then t else UpsertRow(UpsertRows(t, rows[..|rows| - 1]), rows[|rows| - 1])
  }

  /** The table seen through its primary key. */
  ghost function ByKey(t: seq<Message>): MessageTable {
    if t == [] then map[] else ByKey(t[..|t| - 1])[KeyOf(t[|t| - 1]) := t[|t| - 1]]
  }

  lemma {:induction false} ByKeyLookup(t: seq<Message>, k: Key)
    requires UniqueKeys(t)
    ensures Lookup(ByKey(t), k) == if Find(t, k) < |t| then Some(t[Find(t, k)]) else None
  {
    if t != [] {
      ByKeyLookup(t[..|t| - 1], k);
    }
  }

  lemma ByKeyFacts(t: seq<Message>)
    requires UniqueKeys(t)
    ensures ByKey(t).Values == Elems(t)
    ensures forall k :: k in ByKey(t) ==> KeyOf(ByKey(t)[k]) == k
    ensures forall m :: m in t ==> KeyOf(m) in ByKey(t) && ByKey(t)[KeyOf(m)] == m
  {
    var b := ByKey(t);
    forall k | k in b
      ensures b[k] in t && KeyOf(b[k]) == k
    {
      ByKeyLookup(t, k);
    }
    forall m | m in t
      ensures KeyOf(m) in b && b[KeyOf(m)] == m
    {
      ByKeyLookup(t, KeyOf(m));
      var i :| 0 <= i < |t| && t[i] == m;
      assert Find(t, KeyOf(m)) == i;
    }
  }

  lemma UpsertRowUnique(t: seq<Message>, m: Message)
    requires UniqueKeys(t)
    ensures UniqueKeys(UpsertRow(t, m))
  {
  }

  /** Seen through the key, a row upsert is the table upsert. */
  lemma UpsertRowByKey(t: seq<Message>, m: Message)
    requires UniqueKeys(t)
    ensures ByKey(UpsertRow(t, m)) == Upsert(ByKey(t), m)
  {
    UpsertRowUnique(t, m);
    var r := UpsertRow(t, m);
    var a, b := ByKey(r), Upsert(ByKey(t), m);
    ByKeyLookup(t, KeyOf(m));
    forall k
      ensures Lookup(a, k) == Lookup(b, k)
    {
      ByKeyLookup(t, k);
      ByKeyLookup(r, k);
      UpsertRowFind(t, m, k);
    }
    SameLookups(a, b);
  }

  lemma UpsertRowFind(t: seq<Message>, m: Message, k: Key)
    requires UniqueKeys(t)
    ensures k != KeyOf(m) ==>
      (Find(t, k) < |t| <==> Find(UpsertRow(t, m), k) < |UpsertRow(t, m)|)
      && (Find(t, k) < |t| ==> UpsertRow(t, m)[Find(UpsertRow(t, m), k)] == t[Find(t, k)])
    ensures k == KeyOf(m) ==> Find(UpsertRow(t, m), k) == Find(t, k) < |UpsertRow(t, m)|
  {
    var r := UpsertRow(t, m);
    assert forall j :: 0 <= j < |t| && KeyOf(t[j]) != KeyOf(m) ==> r[j] == t[j];
    if k == KeyOf(m) {
      var i := Find(t, k);
      assert i < |r| && KeyOf(r[i]) == k;
      UpsertRowUnique(t, m);
      FindUnique(r, k, i);
    }
  }

  lemma FindUnique(t: seq<Message>, k: Key, i: nat)
    requires UniqueKeys(t) && i < |t| && KeyOf(t[i]) == k
    ensures Find(t, k) == i
  {
  }

  lemma {:induction false} UpsertRowsByKey(t: seq<Message>, rows: seq<Message>)
    requires UniqueKeys(t)
    ensures UniqueKeys(UpsertRows(t, rows))
    ensures ByKey(UpsertRows(t, rows)) == UpsertAll(ByKey(t), rows)
  {
    if rows != [] {
      UpsertRowsByKey(t, rows[..|rows| - 1]);
      UpsertRowUnique(UpsertRows(t, rows[..|rows| - 1]), rows[|rows| - 1]);
      UpsertRowByKey(UpsertRows(t, rows[..|rows| - 1]), rows[|rows| - 1]);
    }
  }

  // ---- the in-memory fold ----

  /** The fold's flat map key: a length prefix, then both ids run together. */
  function FlatKey(m: Message): string {
    Digits(|m.convId|) + ":" + m.convId + m.id
  }

  lemma SplitSame(x: string, y: string, x': string, y': string)
    requires x + y == x' + y' && |x| == |x'|
    ensures x == x' && y == y'
  {
    assert (x + y)[..|x|] == x && (x + y)[|x|..] == y;
    assert (x' + y')[..|x|] == x' && (x' + y')[|x|..] == y';
  }

  /** No two primary keys share a flat key. */
  lemma FlatKeyInjective(m: Message, n: Message)
    requires FlatKey(m) == FlatKey(n)
    ensures KeyOf(m) == KeyOf(n)
  {
    var a, b := Digits(|m.convId|), Digits(|n.convId|);
    var x, y := m.convId + m.id, n.convId + n.id;
    DigitsRoundTrip(|m.convId|);
    DigitsRoundTrip(|n.convId|);
    assert FlatKey(m) == a + ":" + x && FlatKey(n) == b + ":" + y;
    ColonBound(a, x, b, y);
    ColonBound(b, y, a, x);
    SplitSame(a + ":", x, b + ":", y);
    SplitSame(a, ":", b, ":");
    SplitSame(m.convId, m.id, n.convId, n.id);
  }

  /** Digits end at the first colon. */
  lemma ColonBound(a: string, x: string, b: string, y: string)
    requires AllDigits(b) && a + ":" + x == b + ":" + y
    ensures |b| <= |a|
  {
    var s := a + ":" + x;
    assert s[|a|] == ':';
    assert s[..|b|] == b;
    forall j | 0 <= j < |b|
      ensures IsDigit(s[j])
    {
      assert s[j] == b[j] && b[j] in b;
    }
  }

  /** A JS Map from flat keys: its keys in first-insertion order and its slots. */
  ghost predicate Holds(order: seq<string>, slots: map<string, Message>, t: seq<Message>) {
    && |order| == |t|
    && (forall i :: 0 <= i < |t| ==> order[i] == FlatKey(t[i]) && order[i] in slots && slots[order[i]] == t[i])
    && (forall f :: f in slots ==> f in order)
  }

  /** The fold keeps one winner per key in first-occurrence order: exactly the table the row-by-row upserts build. */
  method FoldMessageWinners(rows: seq<Message>) returns (winners: seq<Message>)
    ensures winners == UpsertRows([], rows)
    ensures UniqueKeys(winners)
  {
    hide Holds, FlatKey, UniqueKeys, UpsertRow;
    var order: seq<string> := [];
    var slots: map<string, Message> := map[];
    NothingHeld();
    var i := 0;
    while i < |rows|
      invariant 0 <= i <= |rows|
      invariant UniqueKeys(UpsertRows([], rows[..i]))
      invariant Holds(order, slots, UpsertRows([], rows[..i]))
    {
      var row, f := rows[i], FlatKey(rows[i]);
      ghost var t := UpsertRows([], rows[..i]);
      assert rows[..i + 1][..i] == rows[..i];
      UpsertRowUnique(t, row);
      HoldsStep(order, slots, t, row);
      if f !in slots {
        order, slots := order + [f], slots[f := row];
      } else if row.version >= slots[f].version {
        slots := slots[f := row];
      }
      i := i + 1;
    }
    assert rows[..i] == rows;
    winners := CollectSlots(order, slots, UpsertRows([], rows));
  }

  method CollectSlots(order: seq<string>, slots: map<string, Message>, ghost t: seq<Message>) returns (winners: seq<Message>)
    requires Holds(order, slots, t)
    ensures winners == t
  {
    winners := [];
    for j := 0 to |order|
      invariant winners == t[..j]
    {
      winners := winners + [slots[order[j]]];
    }
  }

  lemma NothingHeld()
    ensures Holds([], map[], []) && UniqueKeys([])
  {
  }

  /** One more row: a new key goes to the end, a known one has its slot overwritten unless the row is older. */
  lemma HoldsStep(order: seq<string>, slots: map<string, Message>, t: seq<Message>, row: Message)
    requires Holds(order, slots, t) && UniqueKeys(t)
    ensures var f := FlatKey(row);
      if f !in slots then Holds(order + [f], slots[f := row], UpsertRow(t, row))
      else if row.version >= slots[f].version then Holds(order, slots[f := row], UpsertRow(t, row))
      else UpsertRow(t, row) == t
  {
    hide FlatKey;
    FoldSlot(order, slots, t, row);
  }

  lemma FoldSlot(order: seq<string>, slots: map<string, Message>, t: seq<Message>, row: Message)
    requires Holds(order, slots, t) && UniqueKeys(t)
    ensures var f := FlatKey(row);
      && (f in slots <==> Find(t, KeyOf(row)) < |t|)
      && (f in slots ==> slots[f] == t[Find(t, KeyOf(row))])
      && (forall j :: 0 <= j < |t| && j != Find(t, KeyOf(row)) ==> order[j] != f)
  {
    var f := FlatKey(row);
    forall j | 0 <= j < |t| && order[j] == f
      ensures Find(t, KeyOf(row)) == j
    {
      FlatKeyInjective(t[j], row);
    }
  }

  // ---- bulk insert ----

  /** Multi-row plain inserts of 256, the remainder by upsert; None is a UNIQUE violation. On rows with
      distinct new keys nothing is dropped, repeated or reordered. */
  method InsertMessagesBulk(table: seq<Message>, rows: seq<Message>) returns (r: Option<seq<Message>>)
    requires UniqueKeys(table)
    ensures UniqueKeys(table + rows) ==> r == Some(table + rows)
  {
    var t := table;
    var i := 0;
    if |rows| >= BULK_MSG_ROWS {
      while i + BULK_MSG_ROWS <= |rows|
        invariant 0 <= i <= |rows|
        invariant UniqueKeys(table + rows) ==> t == table + rows[..i]
      {
        for j := 0 to BULK_MSG_ROWS
          invariant UniqueKeys(table + rows) ==> t == table + rows[..i + j]
        {
          if Find(t, KeyOf(rows[i + j])) < |t| {
            assert !UniqueKeys(table + rows) by {
              FreshInPrefix(table, rows, i + j);
            }
            return None;
          }
          t := t + [rows[i + j]];
        }
        i := i + BULK_MSG_ROWS;
      }
    }
    while i < |rows|
      invariant 0 <= i <= |rows|
      invariant UniqueKeys(table + rows) ==> t == table + rows[..i]
    {
      FreshInPrefix(table, rows, i);
      t := UpsertRow(t, rows[i]);
      i := i + 1;
    }
    r := Some(t);
    assert rows[..|rows|] == rows;
  }

  lemma FreshInPrefix(table: seq<Message>, rows: seq<Message>, i: nat)
    requires i < |rows|
    ensures UniqueKeys(table + rows) ==> Find(table + rows[..i], KeyOf(rows[i])) == |table + rows[..i]|
  {
    var all, p := table + rows, table + rows[..i];
    assert forall j :: 0 <= j < |p| ==> all[j] == p[j];
    assert all[|table| + i] == rows[i];
  }

  /** The two build paths give the same table, row for row and in the same order. */
  method BuildMessages(rows: seq<Message>) returns (t: seq<Message>)
    ensures t == UpsertRows([], rows) && UniqueKeys(t)
  {
    var winners := FoldMessageWinners(rows);
    assert [] + winners == winners;
    var r := InsertMessagesBulk([], winners);
    t := r.value;
  }

  // ---- deletes ----

  /** `delete from messages where not p`. */
  function Keep(t: seq<Message>, p: Message -> bool): seq<Message> {
    if t == [] then []
    else if p(t[|t| - 1]) then Keep(t[..|t| - 1], p) + [t[|t| - 1]]
    else Keep(t[..|t| - 1], p)
  }

  lemma {:induction false} KeepElems(t: seq<Message>, p: Message -> bool)
    ensures forall m :: m in Keep(t, p) <==> m in t && p(m)
  {
    if t != [] {
      KeepElems(t[..|t| - 1], p);
      assert t == t[..|t| - 1] + [t[|t| - 1]];
    }
  }

  lemma {:induction false} KeepUnique(t: seq<Message>, p: Message -> bool)
    requires UniqueKeys(t)
    ensures UniqueKeys(Keep(t, p))
  {
    if t != [] {
      var front, m := t[..|t| - 1], t[|t| - 1];
      KeepUnique(front, p);
      KeepElems(front, p);
      var kept := Keep(front, p);
      forall i | 0 <= i < |kept|
        ensures KeyOf(kept[i]) != KeyOf(m)
      {
        assert kept[i] in front;
        var j :| 0 <= j < |front| && front[j] == kept[i];
        assert t[j] == kept[i];
      }
    }
  }

  ghost function KeepTable(b: MessageTable, p: Message -> bool): MessageTable {
    map k | k in b && p(b[k]) :: b[k]
  }

  lemma KeepByKey(t: seq<Message>, p: Message -> bool)
    requires UniqueKeys(t)
    ensures UniqueKeys(Keep(t, p))
    ensures ByKey(Keep(t, p)) == KeepTable(ByKey(t), p)
  {
    KeepUnique(t, p);
    KeepElems(t, p);
    ByKeyFacts(t);
    ByKeyFacts(Keep(t, p));
    var a, b := ByKey(Keep(t, p)), ByKey(t);
    forall k | k in a
      ensures k in b && b[k] == a[k] && p(a[k])
    {
      assert a[k] in a.Values;
    }
    forall k | k in b && p(b[k])
      ensures k in a
    {
      assert b[k] in b.Values;
    }
  }
}
