/** Refreshes over the log's history: snapshots are loads of files that represent it, and the per-store
    change signatures that let a whole-store replace be skipped. */
module Refresh {
  import opened Base
  import opened Source
  import opened History
  import opened Delta
  import opened Builds
  import opened Sorting

  /** Which object store a key's record belongs to, if it is a data record at all. */
  type BucketOf = Bytes -> Option<string>

  /** Each bucket of `snap` lists, once each, what is live among the operations that were read. */
  ghost predicate Lists(snap: Snapshot, ops: set<Op>, bucketOf: BucketOf) {
    && IsMaxSeq(ops, snap.maxSeq)
    && forall sk :: NoDup(Bucket(snap, sk)) && Elems(Bucket(snap, sk)) == Part(Live(ops), k => bucketOf(k) == Some(sk))
  }

  /** `snap` is a complete load of the files. */
  ghost predicate Loads(snap: Snapshot, files: set<Op>, bucketOf: BucketOf) {
    !snap.lossy && Lists(snap, files, bucketOf)
  }

  lemma LiveByKey(files: set<Op>, r: Rec, s: Rec)
    requires r in Live(files) && s in Live(files)
    ensures r.key == s.key ==> r == s
  {
  }

  /** A load of several stores has one record per key. */
  lemma {:induction false} LoadedRecords(snap: Snapshot, files: set<Op>, bucketOf: BucketOf, targets: seq<string>)
    requires Lists(snap, files, bucketOf) && NoDup(targets)
    ensures forall r :: r in Records(snap, targets) <==> r in Live(files) && exists sk :: sk in targets && bucketOf(r.key) == Some(sk)
    ensures DistinctKeys(Records(snap, targets))
  {
    if targets != [] {
      var n := |targets| - 1;
      var front, sk := targets[..n], targets[n];
      assert targets == front + [sk];
      LoadedRecords(snap, files, bucketOf, front);
      var a, b := Records(snap, front), Bucket(snap, sk);
      assert forall r :: r in b <==> r in Elems(b);
      var ab := a + b;
      forall i, j | 0 <= i < j < |ab|
        ensures ab[i].key != ab[j].key
      {
        var r, s := ab[i], ab[j];
        if i < |a| <= j {
          assert r in a && s in b;
        } else if |a| <= i {
          assert r in b && s in b && r != s;
          LiveByKey(files, r, s);
        }
      }
    }
  }

  /** What was listed from a log has one record per key over any of its stores. */
  lemma ListedOncePerKey(snap: Snapshot, ops: set<Op>, bucketOf: BucketOf)
    requires Lists(snap, ops, bucketOf)
    ensures OnePerKey(snap)
  {
    forall targets | NoDup(targets)
      ensures DistinctKeys(Records(snap, targets))
    {
      LoadedRecords(snap, ops, bucketOf, targets);
    }
  }

  lemma TargetsNoDup(mapping: Mapping, snap: Snapshot, e: Entity)
    ensures NoDup(Targets(mapping, snap, e)) && Elems(Targets(mapping, snap, e)) == TargetSet(mapping, snap, e)
  {
    TextOrder();
    ListsNoDup(TextLess, Targets(mapping, snap, e), TargetSet(mapping, snap, e));
    ListsElems(TextLess, Targets(mapping, snap, e), TargetSet(mapping, snap, e));
  }

  /** The increment theorem with its data hypotheses discharged: `prior` and `snap` are loads of one growing log at two points,
      under any compaction in between. */
  lemma IncrementOverHistory(mapping: Mapping, self: Option<string>, h: seq<Op>, files0: set<Op>, ext: seq<Op>,
                             files1: set<Op>, bucketOf: BucketOf,
                             prior: Snapshot, snap: Snapshot, book0: map<string, string>, c0: Contents, book1: map<string,
                               string>, c1: Contents,
                             indexed: bool)
    requires Increasing(h + ext) && Represents(files0, h) && Represents(files1, h + ext)
    requires Loads(prior, files0, bucketOf) && Loads(snap, files1, bucketOf)
    requires IsBuild(mapping, self, prior, book0, indexed, c0)
    requires IsIncrement(mapping, StateOf(mapping, self, prior), snap, c0.messages, book1, indexed, c1)
    requires TargetSet(mapping, prior, MessageEntity) == TargetSet(mapping, snap, MessageEntity)
    requires TargetSet(mapping, prior, ConversationEntity) == TargetSet(mapping, snap, ConversationEntity)
    ensures IsBuild(mapping, self, snap, book1, indexed, c1)
       <==> AllReconcilable(mapping, self, c0.messages, prior.maxSeq, MessageRecords(mapping, snap))
  {
    hide IsBuild, IsIncrement, AllReconcilable, Records;
    var targets := Targets(mapping, prior, MessageEntity);
    TargetsNoDup(mapping, prior, MessageEntity);
    LoadedRecords(prior, files0, bucketOf, targets);
    LoadedRecords(snap, files1, bucketOf, targets);
    forall r | r in MessageRecords(mapping, snap) && r.seqNo <= prior.maxSeq
      ensures r in MessageRecords(mapping, prior)
    {
      FloorCarries(files0, h, prior.maxSeq, files1, ext, r);
    }
    IncrementIsFullBuild(mapping, self, prior, snap, book0, c0, book1, c1, indexed);
  }

  /** The operation a record was written by. */
  function WrittenBy(r: Rec): Op { Op(r.key, r.seqNo, Some(r.value)) }

  /** A live record was listed by an earlier load, complete or not, iff its operation was read. */
  lemma ListedIffRead(h: seq<Op>, part: set<Op>, ext: seq<Op>, files1: set<Op>, r: Rec)
    requires Increasing(h + ext) && part <= Elems(h) && Represents(files1, h + ext) && r in Live(files1)
    ensures r in Live(part) <==> WrittenBy(r) in part
  {
    CompactionKeepsLive(files1, h + ext);
    ElemsAppend(h, ext);
    if WrittenBy(r) in part {
      assert Newest(part, WrittenBy(r));
    }
  }

  /** Main result for a store built from a lossy load, which read only `part` of the log. A delta to a complete load gives the full
      build iff every record at or below the floor is up to date; with one owner per key before, every record that was read is. */
  lemma LossyIncrement(mapping: Mapping, self: Option<string>, h: seq<Op>, part: set<Op>, ext: seq<Op>, files1: set<Op>,
                       bucketOf: BucketOf,
                       prior: Snapshot, snap: Snapshot, book0: map<string, string>, c0: Contents, book1: map<string, string>, c1: Contents,
                       indexed: bool)
    requires Increasing(h + ext) && part <= Elems(h) && Represents(files1, h + ext)
    requires Lists(prior, part, bucketOf) && Loads(snap, files1, bucketOf)
    requires IsBuild(mapping, self, prior, book0, indexed, c0)
    requires IsIncrement(mapping, StateOf(mapping, self, prior), snap, c0.messages, book1, indexed, c1)
    requires TargetSet(mapping, prior, MessageEntity) == TargetSet(mapping, snap, MessageEntity)
    requires TargetSet(mapping, prior, ConversationEntity) == TargetSet(mapping, snap, ConversationEntity)
    requires OneOwner(mapping, self, MessageRecords(mapping, snap))
    ensures var recs := MessageRecords(mapping, snap);
      && (IsBuild(mapping, self, snap, book1, indexed, c1) <==> AllUpToDate(mapping, self, c0.messages, prior.maxSeq, recs))
      && (OneOwner(mapping, self, MessageRecords(mapping, prior)) ==>
            forall r :: r in recs && WrittenBy(r) in part ==> UpToDate(mapping, self, c0.messages, recs, r))
  {
    hide IsIncrement, UpToDate, Records, FullMessages, Live, OneOwner, DistinctKeys, Increasing, Represents, Follows;
    var recs := MessageRecords(mapping, snap);
    TargetsNoDup(mapping, prior, MessageEntity);
    LoadedRecords(prior, part, bucketOf, Targets(mapping, prior, MessageEntity));
    LoadedRecords(snap, files1, bucketOf, Targets(mapping, prior, MessageEntity));
    IncrementOverAnything(mapping, StateOf(mapping, self, prior), snap, c0.messages, book1, c1, indexed);
    DeltaAgreesByRecord(mapping, self, c0.messages, prior.maxSeq, recs);
    forall r | r in recs && WrittenBy(r) in part && OneOwner(mapping, self, MessageRecords(mapping, prior))
      ensures UpToDate(mapping, self, c0.messages, recs, r)
    {
      ListedIffRead(h, part, ext, files1, r);
      ReadIsUpToDate(mapping, self, MessageRecords(mapping, prior), recs, r);
    }
  }

  // ---- the unchanged-store skip ----

  /** `target:max_seq:count` of one mapped store. */
  datatype StoreSig = StoreSig(target: string, maxSeq: nat, count: nat)

  function BucketMax(recs: seq<Rec>): nat {
    if recs == [] then 0 else Max(BucketMax(recs[..|recs| - 1]), recs[|recs| - 1].seqNo)
  }

  /** Signatures of an entity's stores, from bucket metadata alone. */
  function EntitySig(snap: Snapshot, targets: seq<string>): seq<StoreSig> {
    if targets == [] then []
    else
      var sk := targets[|targets| - 1];
      EntitySig(snap, targets[..|targets| - 1]) + [StoreSig(sk, BucketMax(Bucket(snap, sk)), |Bucket(snap, sk)|)]
  }

  lemma {:induction false} BucketMaxIs(recs: seq<Rec>)
    ensures IsLiveMax(Elems(recs), BucketMax(recs))
  {
    if recs != [] {
      var n := |recs| - 1;
      BucketMaxIs(recs[..n]);
      ElemsStep(recs, n);
      ElemsAll(recs);
    }
  }

  lemma {:induction false} NoDupCount<T>(s: seq<T>)
    requires NoDup(s)
    ensures |Elems(s)| == |s|
  {
    if s != [] {
      var n := |s| - 1;
      NoDupCount(s[..n]);
      ElemsStep(s, n);
      ElemsAll(s);
    }
  }

  /** Equal signatures: the same stores with the same live records. */
  lemma {:induction false} SigSameRecords(h: seq<Op>, files0: set<Op>, ext: seq<Op>, files1: set<Op>, bucketOf: BucketOf,
                                          prior: Snapshot, snap: Snapshot, targets0: seq<string>, targets1: seq<string>)
    requires Increasing(h + ext) && Represents(files0, h) && Represents(files1, h + ext)
    requires Loads(prior, files0, bucketOf) && Loads(snap, files1, bucketOf)
    requires EntitySig(prior, targets0) == EntitySig(snap, targets1)
    ensures targets0 == targets1
    ensures forall r :: r in Records(prior, targets0) <==> r in Records(snap, targets1)
  {
    hide Increasing, Represents, Loads, BucketMax, Bucket;
    var s0, s1 := EntitySig(prior, targets0), EntitySig(snap, targets1);
    if targets0 != [] && targets1 != [] {
      var n, m := |targets0| - 1, |targets1| - 1;
      assert s0[..|s0| - 1] == EntitySig(prior, targets0[..n]) && s1[..|s1| - 1] == EntitySig(snap, targets1[..m]);
      assert s0[|s0| - 1] == s1[|s1| - 1];
      SigSameRecords(h, files0, ext, files1, bucketOf, prior, snap, targets0[..n], targets1[..m]);
      assert targets0 == targets0[..n] + [targets0[n]] && targets1 == targets1[..m] + [targets1[m]];
      SameBucket(h, files0, ext, files1, bucketOf, prior, snap, targets0[n]);
    }
  }

  lemma SameBucket(h: seq<Op>, files0: set<Op>, ext: seq<Op>, files1: set<Op>, bucketOf: BucketOf, prior: Snapshot,
                   snap: Snapshot, sk: string)
    requires Increasing(h + ext) && Represents(files0, h) && Represents(files1, h + ext)
    requires Loads(prior, files0, bucketOf) && Loads(snap, files1, bucketOf)
    requires BucketMax(Bucket(prior, sk)) == BucketMax(Bucket(snap, sk)) && |Bucket(prior, sk)| == |Bucket(snap, sk)|
    ensures forall r :: r in Bucket(prior, sk) <==> r in Bucket(snap, sk)
  {
    var a, b := Bucket(prior, sk), Bucket(snap, sk);
    var keys := (k: Bytes) => bucketOf(k) == Some(sk);
    assert Elems(a) == Part(Live(files0), keys) && Elems(b) == Part(Live(files1), keys);
    BucketMaxIs(a);
    BucketMaxIs(b);
    NoDupCount(a);
    NoDupCount(b);
    SignatureDeterminesStore(files0, h, files1, ext, keys, BucketMax(a));
    assert forall r :: r in a <==> r in Elems(a);
    assert forall r :: r in b <==> r in Elems(b);
  }

  /** No row key is written by two records. */
  ghost predicate RowOwners(mapping: Mapping, e: Entity, recs: seq<Rec>) {
    forall r, s, id :: r in recs && s in recs && Writes(mapping, e, r, id) && Writes(mapping, e, s, id) ==> r == s
  }

  ghost predicate Writes(mapping: Mapping, e: Entity, r: Rec, id: string) {
    exists x :: x in mapping.rows(e, r) && Storable(e, x) && x.id == id
  }

  lemma {:induction false} RowTableAppend(e: Entity, a: seq<Row>, b: seq<Row>)
    ensures RowTable(e, a + b) == RowTable(e, a) + RowTable(e, b)
    decreases |b|
  {
    if b == [] {
      assert a + b == a;
    } else {
      RowTableAppend(e, a, b[..|b| - 1]);
      assert (a + b)[..|a + b| - 1] == a + b[..|b| - 1];
    }
  }

  lemma {:induction false} RowTableKeys(e: Entity, rows: seq<Row>)
    ensures forall id :: id in RowTable(e, rows) <==> exists x :: x in rows && Storable(e, x) && x.id == id
  {
    if rows != [] {
      var n := |rows| - 1;
      RowTableKeys(e, rows[..n]);
      assert rows == rows[..n] + [rows[n]];
    }
  }

  /** With one owner per row key, a table's row is the one its owner writes, whatever the record order. */
  lemma {:induction false} OwnedRow(mapping: Mapping, e: Entity, recs: seq<Rec>, id: string)
    requires RowOwners(mapping, e, recs)
    ensures var t := RowTable(e, EntityRows(mapping, e, recs));
      && (id in t <==> exists r :: r in recs && Writes(mapping, e, r, id))
      && forall r :: r in recs && Writes(mapping, e, r, id) ==> Lookup(t, id) == Lookup(RowTable(e, mapping.rows(e, r)), id)
  {
    if recs != [] {
      var n := |recs| - 1;
      var front, last := recs[..n], recs[n];
      assert recs == front + [last];
      OwnedRow(mapping, e, front, id);
      RowTableAppend(e, EntityRows(mapping, e, front), mapping.rows(e, last));
      RowTableKeys(e, mapping.rows(e, last));
      assert id in RowTable(e, mapping.rows(e, last)) <==> Writes(mapping, e, last, id);
      assert forall r :: r in recs <==> r in front || r == last;
    }
  }

  /** Skipping is sound: with equal signatures and one owner per row key, the stored table is the replacement. */
  lemma SkipIsReplace(mapping: Mapping, e: Entity, h: seq<Op>, files0: set<Op>, ext: seq<Op>, files1: set<Op>, bucketOf: BucketOf,
                      prior: Snapshot, snap: Snapshot)
    requires Increasing(h + ext) && Represents(files0, h) && Represents(files1, h + ext)
    requires Loads(prior, files0, bucketOf) && Loads(snap, files1, bucketOf)
    requires EntitySig(prior, Targets(mapping, prior, e)) == EntitySig(snap, Targets(mapping, snap, e))
    requires RowOwners(mapping, e, Records(prior, Targets(mapping, prior, e)))
    ensures EntityTable(mapping, prior, e) == EntityTable(mapping, snap, e)
  {
    SigSameRecords(h, files0, ext, files1, bucketOf, prior, snap, Targets(mapping, prior, e), Targets(mapping, snap, e));
    SameRecordsSameTable(mapping, e, Records(prior, Targets(mapping, prior, e)), Records(snap, Targets(mapping, snap, e)));
  }

  lemma SameRecordsSameTable(mapping: Mapping, e: Entity, recs0: seq<Rec>, recs1: seq<Rec>)
    requires RowOwners(mapping, e, recs0) && forall r :: r in recs0 <==> r in recs1
    ensures RowTable(e, EntityRows(mapping, e, recs0)) == RowTable(e, EntityRows(mapping, e, recs1))
  {
    hide Writes;
    var a, b := RowTable(e, EntityRows(mapping, e, recs0)), RowTable(e, EntityRows(mapping, e, recs1));
    forall id
      ensures id in a <==> id in b
      ensures id in a ==> a[id] == b[id]
    {
      OwnedRow(mapping, e, recs0, id);
      OwnedRow(mapping, e, recs1, id);
      assert Lookup(a, id) == Lookup(b, id);
    }
  }
}
