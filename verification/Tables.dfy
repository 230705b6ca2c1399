/** Rows of the chat store's tables and the version-guarded upsert of its messages table. */
module Tables {
  import opened Base

  datatype Message = Message(
    convId: string, id: string, chainKey: string, version: int, ts: int,
    senderMri: string, senderName: string, kind: string, isMine: bool, isSystem: bool,
    hasAttach: bool, mentionsMe: bool, content: string, reactions: Option<string>, rootId: string)

  /** Primary key of the messages table. */
  type Key = (string, string)

  function KeyOf(m: Message): Key { (m.convId, m.id) }

  type MessageTable = map<Key, Message>

  /** `insert ... on conflict(conv_id,id) do update ... where excluded.version >= messages.version`. */
  function Upsert(t: MessageTable, m: Message): MessageTable {
    if KeyOf(m) in t && m.version < t[KeyOf(m)].version then t else t[KeyOf(m) := m]
  }

  /** One upsert per row, first to last. */
  function UpsertAll(t: MessageTable, rows: seq<Message>): MessageTable {
    if rows == [] then t
    else Upsert(UpsertAll(t, rows[..|rows| - 1]), rows[|rows| - 1])
  }

  /** The row kept when `b` arrives at a key that holds `a`. */
  function Beat(a: Option<Message>, b: Option<Message>): Option<Message> {
    if a.Some? && b.Some? then (if b.value.version < a.value.version then a else b)
    else if b.Some? then b else a
  }

  /** What a run of upserts into an empty table leaves under `k`. */
  function Winner(rows: seq<Message>, k: Key): Option<Message> {
    if rows == [] then None
    else
      var m := rows[|rows| - 1];
      Beat(Winner(rows[..|rows| - 1], k), if KeyOf(m) == k then Some(m) else None)
  }

  /** Upserts act key by key: the stored row against the winner of the incoming ones. */
  lemma {:induction false} UpsertAllLookup(t: MessageTable, rows: seq<Message>, k: Key)
    ensures Lookup(UpsertAll(t, rows), k) == Beat(Lookup(t, k), Winner(rows, k))
  {
    if rows != [] {
      UpsertAllLookup(t, rows[..|rows| - 1], k);
    }
  }

  lemma {:induction false} WinnerAppend(a: seq<Message>, b: seq<Message>, k: Key)
    ensures Winner(a + b, k) == Beat(Winner(a, k), Winner(b, k))
    decreases |b|
  {
    if b == [] {
      assert a + b == a;
    } else {
      WinnerAppend(a, b[..|b| - 1], k);
      assert (a + b)[..|a + b| - 1] == a + b[..|b| - 1];
    }
  }

  /** The winner is the last row among the newest ones under its key. */
  lemma {:induction false} WinnerIsLastNewest(rows: seq<Message>, k: Key)
    ensures Winner(rows, k) == None <==> forall m :: m in rows ==> KeyOf(m) != k
    ensures Winner(rows, k).Some? ==> exists i :: IsLastNewest(rows, k, i) && Winner(rows, k) == Some(rows[i])
  {
    if rows != [] {
      var n := |rows| - 1;
      var p, m := rows[..n], rows[n];
      WinnerIsLastNewest(p, k);
      assert rows == p + [m];
      if Winner(rows, k).Some? {
        if Winner(rows, k) == Winner(p, k) && (KeyOf(m) != k || m.version < Winner(p, k).value.version) {
          var i :| IsLastNewest(p, k, i) && Winner(p, k) == Some(p[i]);
          assert IsLastNewest(rows, k, i);
        } else {
          assert Winner(rows, k) == Some(rows[n]);
          if Winner(p, k).Some? {
            var i :| IsLastNewest(p, k, i) && Winner(p, k) == Some(p[i]);
          }
          assert IsLastNewest(rows, k, n);
        }
      }
    }
  }

  ghost predicate IsLastNewest(rows: seq<Message>, k: Key, i: int) {
    && 0 <= i < |rows| && KeyOf(rows[i]) == k
    && forall j :: 0 <= j < |rows| && KeyOf(rows[j]) == k ==>
         rows[j].version <= rows[i].version && (i < j ==> rows[j].version < rows[i].version)
  }

  lemma WinnerBounds(rows: seq<Message>, k: Key, m: Message)
    requires m in rows && KeyOf(m) == k
    ensures Winner(rows, k).Some? && m.version <= Winner(rows, k).value.version
  {
    WinnerIsLastNewest(rows, k);
    assert Winner(rows, k).Some?;
    var i :| IsLastNewest(rows, k, i) && Winner(rows, k) == Some(rows[i]);
    var j :| 0 <= j < |rows| && rows[j] == m;
  }

  lemma WinnerIn(rows: seq<Message>, k: Key)
    requires Winner(rows, k).Some?
    ensures Winner(rows, k).value in rows && KeyOf(Winner(rows, k).value) == k
  {
    WinnerIsLastNewest(rows, k);
  }

  lemma {:induction false} UpsertAllKeys(t: MessageTable, rows: seq<Message>)
    requires forall k :: k in t ==> KeyOf(t[k]) == k
    ensures var r := UpsertAll(t, rows);
      && (forall k :: k in r ==> KeyOf(r[k]) == k)
      && r.Keys == t.Keys + (set m | m in rows :: KeyOf(m))
      && (forall k :: k in r ==> (k in t && r[k] == t[k]) || r[k] in rows)
  {
    if rows != [] {
      var n := |rows| - 1;
      UpsertAllKeys(t, rows[..n]);
      assert rows == rows[..n] + [rows[n]];
    }
  }
}
