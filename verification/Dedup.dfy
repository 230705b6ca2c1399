/** Reading the log's files: the fold that keeps one entry per user key, and the grouping of the survivors
    into a snapshot. */
module Dedups {
  import opened Base
  import opened Source

  const TOMBSTONE: Byte := 0

  /** A decoded entry of a table or a write-ahead log. */
  datatype Entry = Entry(key: Bytes, seqNo: nat, rtype: Byte, value: Bytes)

  /** The folded state: survivors in first-appearance order, entries considered, and whether anything was unreadable. */
  datatype Folded = Folded(order: seq<Entry>, raw: nat, lossy: bool)

  const NOTHING := Folded([], 0, false)

  ghost predicate UniqueEntryKeys(order: seq<Entry>) {
    forall i, j :: 0 <= i < j < |order| ==> order[i].key != order[j].key
  }

  function IndexOf(order: seq<Entry>, key: Bytes): (i: nat)
    ensures i <= |order|
    ensures i < |order| ==> order[i].key == key
    ensures forall j :: 0 <= j < i ==> order[j].key != key
  {
    if order == [] then 0
    else
      var i := IndexOf(order[..|order| - 1], key);
      if i < |order| - 1 then i else if order[|order| - 1].key == key then |order| - 1 else |order|
  }

  /** A new key goes last; a strictly newer entry takes its key's slot. */
  function Settle(order: seq<Entry>, e: Entry): seq<Entry> {
    var i := IndexOf(order, e.key);
    if i == |order| then order + [e] else if e.seqNo > order[i].seqNo then order[i := e] else order
  }

  function FoldEntries(order: seq<Entry>, es: seq<Entry>): seq<Entry> {
    if es == [] then order else Settle(FoldEntries(order, es[..|es| - 1]), es[|es| - 1])
  }

  lemma {:induction false} FoldEntriesAppend(order: seq<Entry>, a: seq<Entry>, b: seq<Entry>)
    ensures FoldEntries(order, a + b) == FoldEntries(FoldEntries(order, a), b)
    decreases |b|
  {
    if b == [] {
      assert a + b == a;
    } else {
      FoldEntriesAppend(order, a, b[..|b| - 1]);
      assert (a + b)[..|a + b| - 1] == a + b[..|b| - 1];
    }
  }

  // ---- what the fold keeps ----

  /** `es[i]` is the first entry with the highest sequence of its key. */
  ghost predicate IsFirstNewest(es: seq<Entry>, i: int) {
    && 0 <= i < |es|
    && forall j :: 0 <= j < |es| && es[j].key == es[i].key ==> es[j].seqNo <= es[i].seqNo && (j < i ==> es[j].seqNo < es[i].seqNo)
  }

  /** Keys in first-appearance order. */
  function FirstKeys(es: seq<Entry>): seq<Bytes> {
    if es == [] then []
    else
      var rest := FirstKeys(es[..|es| - 1]);
      if es[|es| - 1].key in rest then rest else rest + [es[|es| - 1].key]
  }

  /** The survivor of one key. */
  function Best(es: seq<Entry>, key: Bytes): Option<Entry> {
    if es == [] then None
    else
      var b, e := Best(es[..|es| - 1], key), es[|es| - 1];
      if e.key == key && (b.None? || e.seqNo > b.value.seqNo) then Some(e) else b
  }

  function At(order: seq<Entry>, key: Bytes): Option<Entry> {
    if IndexOf(order, key) < |order| then Some(order[IndexOf(order, key)]) else None
  }

  lemma SettleAt(order: seq<Entry>, e: Entry, key: Bytes)
    requires UniqueEntryKeys(order)
    ensures UniqueEntryKeys(Settle(order, e))
    ensures At(Settle(order, e), key) ==
      if e.key == key && (At(order, key).None? || e.seqNo > At(order, key).value.seqNo) then Some(e) else At(order, key)
  {
    var r, i := Settle(order, e), IndexOf(order, key);
    assert forall j :: 0 <= j < |order| && order[j].key != e.key ==> r[j] == order[j];
    assert UniqueEntryKeys(r);
    if i < |order| {
      assert r[i].key == key;
      assert IndexOf(r, key) == i;
    } else if e.key == key {
      assert r[|order|].key == key;
      assert IndexOf(r, key) == |order|;
    } else {
      assert forall j :: 0 <= j < |r| ==> r[j].key != key;
    }
  }

  lemma {:induction false} FoldBest(es: seq<Entry>, key: Bytes)
    ensures UniqueEntryKeys(FoldEntries([], es)) && At(FoldEntries([], es), key) == Best(es, key)
  {
    if es != [] {
      FoldBest(es[..|es| - 1], key);
      SettleAt(FoldEntries([], es[..|es| - 1]), es[|es| - 1], key);
    }
  }

  lemma {:induction false} BestIsFirstNewest(es: seq<Entry>, key: Bytes)
    ensures Best(es, key).None? <==> forall e :: e in es ==> e.key != key
    ensures Best(es, key).Some? ==> exists j :: IsFirstNewest(es, j) && es[j] == Best(es, key).value && es[j].key == key
  {
    if es != [] {
      var n := |es| - 1;
      var front, e := es[..n], es[n];
      BestIsFirstNewest(front, key);
      assert es == front + [e];
      if Best(front, key).Some? {
        var j :| IsFirstNewest(front, j) && front[j] == Best(front, key).value && front[j].key == key;
        if e.key == key && e.seqNo > front[j].seqNo {
          assert IsFirstNewest(es, n);
        } else {
          assert IsFirstNewest(es, j);
        }
      } else if e.key == key {
        assert forall i :: 0 <= i < n ==> front[i] in front;
        assert IsFirstNewest(es, n);
      }
    }
  }

  function KeysOf(order: seq<Entry>): (ks: seq<Bytes>)
    ensures |ks| == |order| && forall i :: 0 <= i < |order| ==> ks[i] == order[i].key
  {
    if order == [] then [] else KeysOf(order[..|order| - 1]) + [order[|order| - 1].key]
  }

  lemma SettleKeys(order: seq<Entry>, e: Entry)
    ensures KeysOf(Settle(order, e)) == if e.key in KeysOf(order) then KeysOf(order) else KeysOf(order) + [e.key]
  {
    var i, ks := IndexOf(order, e.key), KeysOf(order);
    if i < |order| {
      assert ks[i] == e.key;
    } else {
      assert forall j :: 0 <= j < |ks| ==> ks[j] != e.key;
    }
  }

  lemma {:induction false} FoldOrder(es: seq<Entry>)
    ensures KeysOf(FoldEntries([], es)) == FirstKeys(es)
  {
    if es != [] {
      FoldOrder(es[..|es| - 1]);
      SettleKeys(FoldEntries([], es[..|es| - 1]), es[|es| - 1]);
    }
  }

  /** The fold in one statement: one survivor per key, in first-appearance order, each the first of its key's newest. */
  lemma FoldKeepsNewest(es: seq<Entry>)
    ensures var r := FoldEntries([], es);
      && UniqueEntryKeys(r) && KeysOf(r) == FirstKeys(es)
      && (forall i :: 0 <= i < |r| ==> exists j :: IsFirstNewest(es, j) && es[j] == r[i])
      && (forall e :: e in es ==> exists i :: 0 <= i < |r| && r[i].key == e.key)
  {
    FoldOrder(es);
    FoldBest(es, []);
    var r := FoldEntries([], es);
    forall i | 0 <= i < |r|
      ensures exists j :: IsFirstNewest(es, j) && es[j] == r[i]
    {
      FoldBest(es, r[i].key);
      assert IndexOf(r, r[i].key) == i;
      BestIsFirstNewest(es, r[i].key);
    }
    forall e | e in es
      ensures exists i :: 0 <= i < |r| && r[i].key == e.key
    {
      FoldBest(es, e.key);
      BestIsFirstNewest(es, e.key);
      assert r[IndexOf(r, e.key)].key == e.key;
    }
  }

  // ---- independence of file layout ----

  /** One entry per key and sequence number: what a log guarantees across its files. */
  ghost predicate Consistent(es: seq<Entry>) {
    forall a, b :: a in es && b in es && a.key == b.key && a.seqNo == b.seqNo ==> a == b
  }

  ghost function Survivors(es: seq<Entry>): set<Entry> {
    set e | e in es && forall f :: f in es && f.key == e.key ==> f.seqNo <= e.seqNo
  }

  lemma InFold(es: seq<Entry>, e: Entry)
    ensures e in FoldEntries([], es) <==> Best(es, e.key) == Some(e)
  {
    FoldBest(es, e.key);
    var r := FoldEntries([], es);
    if e in r {
      var i :| 0 <= i < |r| && r[i] == e;
      assert IndexOf(r, e.key) == i;
    }
  }

  lemma BestSurvives(es: seq<Entry>, e: Entry)
    requires Consistent(es)
    ensures Best(es, e.key) == Some(e) <==> e in Survivors(es)
  {
    BestIsFirstNewest(es, e.key);
    if Best(es, e.key).Some? {
      var j :| IsFirstNewest(es, j) && es[j] == Best(es, e.key).value && es[j].key == e.key;
      assert es[j] in es;
      forall f | f in es && f.key == e.key
        ensures f.seqNo <= es[j].seqNo
      {
        var x :| 0 <= x < |es| && es[x] == f;
      }
    }
  }

  lemma FoldIsSurvivors(es: seq<Entry>)
    requires Consistent(es)
    ensures Elems(FoldEntries([], es)) == Survivors(es)
  {
    forall e
      ensures e in FoldEntries([], es) <==> e in Survivors(es)
    {
      InFold(es, e);
      BestSurvives(es, e);
    }
  }

  /** However entries are split and ordered across tables and logs, the same records survive. */
  lemma LayoutIrrelevant(es: seq<Entry>, fs: seq<Entry>)
    requires Consistent(es) && forall e :: e in es <==> e in fs
    ensures Elems(FoldEntries([], es)) == Elems(FoldEntries([], fs))
  {
    FoldIsSurvivors(es);
    FoldIsSurvivors(fs);
  }

  /** Dropping shadowed entries, as compaction does, changes no survivor. */
  lemma DroppingShadowed(es: seq<Entry>, fs: seq<Entry>)
    requires Consistent(es)
    requires forall e :: e in fs ==> e in es
    requires forall e :: e in Survivors(es) ==> e in fs
    ensures Elems(FoldEntries([], fs)) == Elems(FoldEntries([], es))
  {
    FoldIsSurvivors(es);
    FoldIsSurvivors(fs);
    forall e | e in Survivors(fs)
      ensures e in Survivors(es)
    {
      BestIsFirstNewest(es, e.key);
      var b := Best(es, e.key).value;
      BestSurvives(es, b);
      assert b in fs;
    }
  }

  // ---- the folding object ----

  class Dedup {
    var order: seq<Entry>
    var index: map<Bytes, nat>
    var raw: nat
    var lossy: bool
    const seqCap: Option<nat>

    ghost function View(): Folded
      reads this
    {
      Folded(order, raw, lossy)
    }

    /** The index finds every survivor at its position, and nothing else. */
    ghost predicate Valid()
      reads this
    {
      && (forall i :: 0 <= i < |order| ==> order[i].key in index && index[order[i].key] == i)
      && (forall k :: k in index ==> index[k] < |order| && order[index[k]].key == k)
    }

    constructor (seqCap: Option<nat>)
      ensures Valid() && View() == NOTHING && this.seqCap == seqCap
    {
      order, index, raw, lossy := [], map[], 0, false;
      this.seqCap := seqCap;
    }

    /** A copy that shares nothing that can change. */
    constructor Clone(d: Dedup)
      requires d.Valid()
      ensures Valid() && View() == d.View() && seqCap == d.seqCap
    {
      order, index, raw, lossy := d.order, d.index, d.raw, d.lossy;
      seqCap := d.seqCap;
    }

    method Consider(e: Entry)
      requires Valid()
      modifies this
      ensures Valid() && lossy == old(lossy)
      ensures seqCap.Some? && e.seqNo > seqCap.value ==> View() == old(View())
      ensures !(seqCap.Some? && e.seqNo > seqCap.value) ==> order == Settle(old(order), e) && raw == old(raw) + 1
    {
      if seqCap.Some? && e.seqNo > seqCap.value {
        return;
      }
      raw := raw + 1;
      assert IndexOf(order, e.key) == if e.key in index then index[e.key] else |order|;
      if e.key !in index {
        index := index[e.key := |order|];
        order := order + [e];
      } else {
        var i := index[e.key];
        if e.seqNo > order[i].seqNo {
          order := order[i := e];
        }
      }
    }

    method FoldAll(es: seq<Entry>)
      requires Valid() && seqCap.None?
      modifies this
      ensures Valid() && View() == Folded(FoldEntries(old(order), es), old(raw) + |es|, old(lossy))
    {
      for i := 0 to |es|
        invariant Valid() && View() == Folded(FoldEntries(old(order), es[..i]), old(raw) + i, old(lossy))
      {
        assert es[..i + 1][..i] == es[..i];
        Consider(es[i]);
      }
      assert es[..|es|] == es;
    }
  }
}
