/** Grouping a folded log into a snapshot, and why the result is a load of the files in the sense the refresh needs. */
module Load {
  import opened Base
  import opened Source
  import opened History
  import opened Dedups
  import opened Refresh

  function RecOf(e: Entry): Rec { Rec(e.key, e.seqNo, e.value) }

  /** The records of one store, in survivor order; tombstones are in no store. */
  function StoreRecords(order: seq<Entry>, bucketOf: BucketOf, sk: string): seq<Rec> {
    if order == [] then []
    else
      var rest, e := StoreRecords(order[..|order| - 1], bucketOf, sk), order[|order| - 1];
      if e.rtype != TOMBSTONE && bucketOf(e.key) == Some(sk) then rest + [RecOf(e)] else rest
  }

  /** The high-water mark counts tombstones too. */
  function HighWater(order: seq<Entry>): nat {
    if order == [] then 0 else Max(HighWater(order[..|order| - 1]), order[|order| - 1].seqNo)
  }

  function RecordsOf(buckets: map<string, seq<Rec>>, sk: string): seq<Rec> {
    if sk in buckets then buckets[sk] else []
  }

  /** One pass over the survivors. `names` resolves the store catalog from the catalog rows. */
  method CollectSnapshot(order: seq<Entry>, lossy: bool, bucketOf: BucketOf, names: seq<Entry> -> map<string, StoreName>)
    returns (snap: Snapshot)
    ensures forall sk :: Bucket(snap, sk) == StoreRecords(order, bucketOf, sk)
    ensures snap.maxSeq == HighWater(order) && snap.lossy == lossy && snap.catalog == names(order)
  {
    var buckets: map<string, seq<Rec>> := map[];
    var maxSeq := 0;
    for i := 0 to |order|
      invariant forall sk :: RecordsOf(buckets, sk) == StoreRecords(order[..i], bucketOf, sk)
      invariant maxSeq == HighWater(order[..i])
    {
      var e := order[i];
      assert order[..i + 1][..i] == order[..i];
      maxSeq := Max(maxSeq, e.seqNo);
      if e.rtype == TOMBSTONE {
        continue;
      }
      var sk := bucketOf(e.key);
      if sk.Some? {
        buckets := buckets[sk.value := RecordsOf(buckets, sk.value) + [RecOf(e)]];
      }
    }
    assert order[..|order|] == order;
    snap := Snapshot(buckets, names(order), maxSeq, lossy);
  }

  // ---- the load theorem ----

  function OpOf(e: Entry): Op {
    Op(e.key, e.seqNo, if e.rtype == TOMBSTONE then None else Some(e.value))
  }

  ghost function OpsOf(es: seq<Entry>): set<Op> {
    set e | e in es :: OpOf(e)
  }

  /** The survivors are exactly the newest operations of the files. */
  lemma SurvivorIsNewest(es: seq<Entry>, e: Entry)
    requires Consistent(es)
    ensures e in FoldEntries([], es) ==> Newest(OpsOf(es), OpOf(e))
    ensures e in es && Newest(OpsOf(es), OpOf(e)) ==> e in FoldEntries([], es)
  {
    InFold(es, e);
    BestSurvives(es, e);
    if e in Survivors(es) {
      forall p | p in OpsOf(es) && p.key == e.key
        ensures p == OpOf(e) || p.seqNo < e.seqNo
      {
        var f :| f in es && OpOf(f) == p;
      }
    }
    if e in es && Newest(OpsOf(es), OpOf(e)) {
      forall f | f in es && f.key == e.key
        ensures f.seqNo <= e.seqNo
      {
        assert OpOf(f) in OpsOf(es);
      }
    }
  }

  ghost predicate InStore(bucketOf: BucketOf, sk: string, e: Entry) {
    e.rtype != TOMBSTONE && bucketOf(e.key) == Some(sk)
  }

  lemma {:induction false} StoreRecordsElems(order: seq<Entry>, bucketOf: BucketOf, sk: string)
    ensures forall r :: r in StoreRecords(order, bucketOf, sk) <==>
      exists e :: e in order && InStore(bucketOf, sk, e) && r == RecOf(e)
  {
    if order != [] {
      var n := |order| - 1;
      StoreRecordsElems(order[..n], bucketOf, sk);
      assert order == order[..n] + [order[n]];
    }
  }

  lemma {:induction false} StoreRecordsOnce(order: seq<Entry>, bucketOf: BucketOf, sk: string)
    requires UniqueEntryKeys(order)
    ensures DistinctKeys(StoreRecords(order, bucketOf, sk)) && NoDup(StoreRecords(order, bucketOf, sk))
    ensures forall r :: r in StoreRecords(order, bucketOf, sk) ==> bucketOf(r.key) == Some(sk)
  {
    if order != [] {
      var n := |order| - 1;
      var front, e := order[..n], order[n];
      StoreRecordsOnce(front, bucketOf, sk);
      StoreRecordsElems(front, bucketOf, sk);
      assert forall f :: f in front ==> f.key != e.key;
      var rest := StoreRecords(front, bucketOf, sk);
      assert forall r :: r in rest ==> r.key != e.key;
    }
  }

  /** Every collected snapshot, lossy or not, has one record per key over any of its stores. */
  lemma CollectedOnce(order: seq<Entry>, snap: Snapshot, bucketOf: BucketOf)
    requires UniqueEntryKeys(order) && forall sk :: Bucket(snap, sk) == StoreRecords(order, bucketOf, sk)
    ensures OnePerKey(snap)
  {
    forall targets | NoDup(targets)
      ensures DistinctKeys(Records(snap, targets))
    {
      StoresOnce(order, snap, bucketOf, targets);
    }
  }

  lemma {:induction false} StoresOnce(order: seq<Entry>, snap: Snapshot, bucketOf: BucketOf, targets: seq<string>)
    requires UniqueEntryKeys(order) && (forall sk :: Bucket(snap, sk) == StoreRecords(order, bucketOf, sk)) && NoDup(targets)
    ensures DistinctKeys(Records(snap, targets))
    ensures forall r :: r in Records(snap, targets) ==> exists sk :: sk in targets && bucketOf(r.key) == Some(sk)
  {
    hide UniqueEntryKeys, Bucket;
    if targets != [] {
      var n := |targets| - 1;
      var front, sk := targets[..n], targets[n];
      assert targets == front + [sk];
      StoresOnce(order, snap, bucketOf, front);
      StoreRecordsOnce(order, bucketOf, sk);
      var a, b := Records(snap, front), Bucket(snap, sk);
      assert forall r :: r in a ==> bucketOf(r.key) != Some(sk);
      forall i, j | 0 <= i < j < |a + b|
        ensures (a + b)[i].key != (a + b)[j].key
      {
        if i < |a| <= j {
          assert (a + b)[i] in a && (a + b)[j] in b;
        }
      }
    }
  }

  lemma {:induction false} HighWaterBound(order: seq<Entry>)
    ensures forall e :: e in order ==> e.seqNo <= HighWater(order)
    ensures HighWater(order) == 0 || exists e :: e in order && e.seqNo == HighWater(order)
  {
    if order != [] {
      HighWaterBound(order[..|order| - 1]);
      assert order == order[..|order| - 1] + [order[|order| - 1]];
    }
  }

  /** Main result: folding the entries that were read and grouping them lists exactly what is live among them, once each, with the
      newest surviving sequence as high-water mark; it is a load of the files when everything could be read. */
  lemma CollectLoads(es: seq<Entry>, snap: Snapshot, bucketOf: BucketOf)
    requires Consistent(es)
    requires snap.maxSeq == HighWater(FoldEntries([], es))
    requires forall sk :: Bucket(snap, sk) == StoreRecords(FoldEntries([], es), bucketOf, sk)
    ensures Lists(snap, OpsOf(es), bucketOf) && (!snap.lossy ==> Loads(snap, OpsOf(es), bucketOf))
  {
    var order, files := FoldEntries([], es), OpsOf(es);
    hide Live, HighWater, Newest, OpsOf;
    FoldBest(es, []);
    forall sk
      ensures NoDup(Bucket(snap, sk)) && Elems(Bucket(snap, sk)) == Part(Live(files), k => bucketOf(k) == Some(sk))
    {
      StoreRecordsOnce(order, bucketOf, sk);
      StoreIsLivePart(es, bucketOf, sk);
    }
    HighWaterIsMax(es);
  }

  lemma HighWaterIsMax(es: seq<Entry>)
    requires Consistent(es)
    ensures IsMaxSeq(OpsOf(es), HighWater(FoldEntries([], es)))
  {
    var order, files := FoldEntries([], es), OpsOf(es);
    HighWaterBound(order);
    forall o | o in files && Newest(files, o)
      ensures o.seqNo <= HighWater(order)
    {
      var e :| e in es && OpOf(e) == o;
      SurvivorIsNewest(es, e);
    }
    if HighWater(order) != 0 {
      var e :| e in order && e.seqNo == HighWater(order);
      FoldIsSurvivors(es);
      assert e in Elems(order);
      SurvivorIsNewest(es, e);
      assert OpOf(e) in files;
    }
  }

  lemma StoreIsLivePart(es: seq<Entry>, bucketOf: BucketOf, sk: string)
    requires Consistent(es)
    ensures Elems(StoreRecords(FoldEntries([], es), bucketOf, sk)) == Part(Live(OpsOf(es)), k => bucketOf(k) == Some(sk))
  {
    var order, files := FoldEntries([], es), OpsOf(es);
    StoreRecordsElems(order, bucketOf, sk);
    var recs := StoreRecords(order, bucketOf, sk);
    FoldIsSurvivors(es);
    forall r
      ensures r in recs <==> r in Part(Live(files), k => bucketOf(k) == Some(sk))
    {
      if r in recs {
        var e :| e in order && InStore(bucketOf, sk, e) && r == RecOf(e);
        assert e in Elems(order);
        SurvivorIsNewest(es, e);
        assert OpOf(e) in files;
      }
      if r in Part(Live(files), k => bucketOf(k) == Some(sk)) {
        var o :| o in files && Newest(files, o) && o.value.Some? && r == Rec(o.key, o.seqNo, o.value.value);
        var e :| e in es && OpOf(e) == o;
        SurvivorIsNewest(es, e);
        assert r == RecOf(e);
      }
    }
  }
}
