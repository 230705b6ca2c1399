/** What an unmoved high-water mark hides: exactly when a store left alone is still a full build, down to the records that vanished;
    and why any two loads of a growing log are steady. */
module Owners {
  import opened Base
  import opened Tables
  import opened Source
  import opened Recompute
  import opened History
  import opened Delta
  import opened Builds
  import opened Refresh
  import opened Sessions
  import Sorting

  // ---- records that vanish, in whatever order the others are listed ----

  lemma OneOwnerPart(mapping: Mapping, self: Option<string>, recs0: seq<Rec>, recs1: seq<Rec>)
    requires OneOwner(mapping, self, recs0) && forall r :: r in recs1 ==> r in recs0
    ensures OneOwner(mapping, self, recs1)
    ensures forall m :: m in MessageRows(mapping, self, recs1) ==> m in MessageRows(mapping, self, recs0)
  {
    hide MessagesOf, MessageRows;
    MessageRowsFacts(mapping, self, recs1);
    forall m | m in MessageRows(mapping, self, recs1)
      ensures m in MessageRows(mapping, self, recs0)
    {
      var r :| r in recs1 && m in MessagesOf(mapping, self, r);
      MessageRowsOf(mapping, self, recs0, r);
    }
  }

  lemma OwnedRowsStay(mapping: Mapping, self: Option<string>, recs0: seq<Rec>, recs1: seq<Rec>, k: Key)
    requires DistinctKeys(recs0) && DistinctKeys(recs1) && OneOwner(mapping, self, recs0)
    requires forall r :: r in recs1 ==> r in recs0
    requires forall r :: r in recs0 && r !in recs1 ==> MessagesOf(mapping, self, r) == []
    ensures Winner(MessageRows(mapping, self, recs1), k) == Winner(MessageRows(mapping, self, recs0), k)
  {
    hide MessagesOf, MessageRows, Winner, ToHex, OneOwner, DistinctKeys;
    OneOwnerPart(mapping, self, recs0, recs1);
    var rows0, rows1 := MessageRows(mapping, self, recs0), MessageRows(mapping, self, recs1);
    if Winner(rows0, k).Some? {
      OwnerWins(mapping, self, recs0, k);
      var r :| r in recs0 && Winner(MessagesOf(mapping, self, r), k) == Winner(rows0, k);
      WinnerIn(MessagesOf(mapping, self, r), k);
      OwnRowWins(mapping, self, recs1, r, k);
    } else if Winner(rows1, k).Some? {
      WinnerIn(rows1, k);
      WinnerBounds(rows0, k, Winner(rows1, k).value);
    }
  }

  /** Losing records leaves the messages of a build alone iff none of them gives a row. */
  lemma VanishedMessages(mapping: Mapping, self: Option<string>, recs0: seq<Rec>, recs1: seq<Rec>)
    requires DistinctKeys(recs0) && DistinctKeys(recs1) && OneOwner(mapping, self, recs0)
    requires forall r :: r in recs1 ==> r in recs0
    ensures FullMessages(mapping, self, recs0) == FullMessages(mapping, self, recs1)
      <==> forall r :: r in recs0 && r !in recs1 ==> MessagesOf(mapping, self, r) == []
  {
    hide MessagesOf, MessageRows, Winner, ToHex, OneOwner, DistinctKeys;
    var a, b := FullMessages(mapping, self, recs0), FullMessages(mapping, self, recs1);
    if forall r :: r in recs0 && r !in recs1 ==> MessagesOf(mapping, self, r) == [] {
      forall k
        ensures Lookup(a, k) == Lookup(b, k)
      {
        UpsertAllLookup(map[], MessageRows(mapping, self, recs0), k);
        UpsertAllLookup(map[], MessageRows(mapping, self, recs1), k);
        OwnedRowsStay(mapping, self, recs0, recs1, k);
      }
      SameLookups(a, b);
    }
    if a == b {
      forall r | r in recs0 && r !in recs1
        ensures MessagesOf(mapping, self, r) == []
      {
        if MessagesOf(mapping, self, r) != [] {
          VanishedRowMissing(mapping, self, recs0, recs1, r);
        }
      }
    }
  }

  lemma VanishedRowMissing(mapping: Mapping, self: Option<string>, recs0: seq<Rec>, recs1: seq<Rec>, r: Rec)
    requires DistinctKeys(recs0) && OneOwner(mapping, self, recs0) && r in recs0 && r !in recs1
    requires (forall s :: s in recs1 ==> s in recs0) && MessagesOf(mapping, self, r) != []
    ensures FullMessages(mapping, self, recs0) != FullMessages(mapping, self, recs1)
  {
    hide MessagesOf, MessageRows, Winner, ToHex, OneOwner, DistinctKeys;
    var m := MessagesOf(mapping, self, r)[0];
    var k := KeyOf(m);
    WinnerBounds(MessagesOf(mapping, self, r), k, m);
    OwnRowWins(mapping, self, recs0, r, k);
    UpsertAllLookup(map[], MessageRows(mapping, self, recs0), k);
    UpsertAllLookup(map[], MessageRows(mapping, self, recs1), k);
    var rows1 := MessageRows(mapping, self, recs1);
    MessageRowsFacts(mapping, self, recs1);
    if Winner(rows1, k).Some? {
      WinnerIn(rows1, k);
      var s :| s in recs1 && Winner(rows1, k).value.chainKey == ToHex(s.key);
      if ToHex(s.key) == ToHex(r.key) {
        KeyOfChain(recs0, s, r);
      }
    }
  }

  /** The same for a whole-store table. */
  lemma VanishedRows(mapping: Mapping, e: Entity, recs0: seq<Rec>, recs1: seq<Rec>)
    requires RowOwners(mapping, e, recs0) && forall r :: r in recs1 ==> r in recs0
    ensures RowTable(e, EntityRows(mapping, e, recs0)) == RowTable(e, EntityRows(mapping, e, recs1))
      <==> forall r, id :: r in recs0 && r !in recs1 ==> !Writes(mapping, e, r, id)
  {
    hide Writes, RowTable, EntityRows;
    var a, b := RowTable(e, EntityRows(mapping, e, recs0)), RowTable(e, EntityRows(mapping, e, recs1));
    forall id
      ensures Lookup(a, id) == Lookup(b, id) <==> forall r :: r in recs0 && r !in recs1 ==> !Writes(mapping, e, r, id)
    {
      OwnedRow(mapping, e, recs0, id);
      OwnedRow(mapping, e, recs1, id);
    }
    if forall r, id :: r in recs0 && r !in recs1 ==> !Writes(mapping, e, r, id) {
      SameLookups(a, b);
    }
    if a == b {
      forall r, id | r in recs0 && r !in recs1
        ensures !Writes(mapping, e, r, id)
      {
        assert Lookup(a, id) == Lookup(b, id);
      }
    }
  }

  ghost predicate Describes(mapping: Mapping, r: Rec, id: string) {
    exists c :: c in mapping.conversations(r.value) && c.id == id
  }

  /** No conversation is described by two records. */
  ghost predicate ConvOwners(mapping: Mapping, recs: seq<Rec>) {
    forall r, s, id :: r in recs && s in recs && Describes(mapping, r, id) && Describes(mapping, s, id) ==> r == s
  }

  lemma {:induction false} MetaAppend(a: seq<ConvMeta>, b: seq<ConvMeta>)
    ensures MetaOf(a + b) == MetaOf(a) + MetaOf(b)
    decreases |b|
  {
    if b == [] {
      assert a + b == a;
    } else {
      MetaAppend(a, b[..|b| - 1]);
      assert (a + b)[..|a + b| - 1] == a + b[..|b| - 1];
    }
  }

  lemma {:induction false} MetaKeys(rows: seq<ConvMeta>)
    ensures forall id :: id in MetaOf(rows) <==> id != "" && exists c :: c in rows && c.id == id
  {
    if rows != [] {
      var n := |rows| - 1;
      MetaKeys(rows[..n]);
      assert rows == rows[..n] + [rows[n]];
    }
  }

  lemma {:induction false} OwnedMeta(mapping: Mapping, recs: seq<Rec>, id: string)
    requires ConvOwners(mapping, recs)
    ensures var t := MetaOf(ConvRows(mapping, recs));
      && (id in t <==> id != "" && exists r :: r in recs && Describes(mapping, r, id))
      && forall r :: r in recs && Describes(mapping, r, id) ==> Lookup(t, id) == Lookup(MetaOf(mapping.conversations(r.value)), id)
  {
    if recs != [] {
      var n := |recs| - 1;
      var front, last := recs[..n], recs[n];
      assert recs == front + [last];
      OwnedMeta(mapping, front, id);
      MetaAppend(ConvRows(mapping, front), mapping.conversations(last.value));
      MetaKeys(mapping.conversations(last.value));
      assert id in MetaOf(mapping.conversations(last.value)) <==> id != "" && Describes(mapping, last, id);
      assert forall r :: r in recs <==> r in front || r == last;
    }
  }

  /** Losing conversation records shows nothing iff each conversation they describe has blank columns and messages to stay for. */
  lemma VanishedConversations(mapping: Mapping, rows: set<Message>, recs0: seq<Rec>, recs1: seq<Rec>)
    requires ConvOwners(mapping, recs0) && forall r :: r in recs1 ==> r in recs0
    ensures SameConversations(rows, MetaOf(ConvRows(mapping, recs0)), MetaOf(ConvRows(mapping, recs1)))
      <==> forall r, id :: r in recs0 && r !in recs1 ==> Dispensable(mapping, rows, r, id)
  {
    hide Describes, MetaOf, ConvRows, ConvIds, Dispensable, SameConversation, SameConversations;
    var a, b := MetaOf(ConvRows(mapping, recs0)), MetaOf(ConvRows(mapping, recs1));
    forall id
      ensures SameConversation(rows, a, b, id) <==> forall r :: r in recs0 && r !in recs1 ==> Dispensable(mapping, rows, r, id)
    {
      VanishedConversation(mapping, rows, recs0, recs1, id);
    }
    EachConversation(rows, a, b);
    if SameConversations(rows, a, b) {
      forall r, id | r in recs0 && r !in recs1
        ensures Dispensable(mapping, rows, r, id)
      {
        assert SameConversation(rows, a, b, id);
      }
    }
  }

  ghost predicate SameConversation(rows: set<Message>, meta0: map<string, ConvMeta>, meta1: map<string, ConvMeta>, id: string) {
    (id in meta0.Keys + ConvIds(rows) <==> id in meta1.Keys + ConvIds(rows)) && ShownMeta(meta0, id) == ShownMeta(meta1, id)
  }

  lemma EachConversation(rows: set<Message>, meta0: map<string, ConvMeta>, meta1: map<string, ConvMeta>)
    ensures SameConversations(rows, meta0, meta1) <==> forall id :: SameConversation(rows, meta0, meta1, id)
  {
    hide ConvIds, ShownMeta;
    if forall id :: SameConversation(rows, meta0, meta1, id) {
      forall id
        ensures id in meta0.Keys + ConvIds(rows) <==> id in meta1.Keys + ConvIds(rows)
        ensures ShownMeta(meta0, id) == ShownMeta(meta1, id)
      {
        assert SameConversation(rows, meta0, meta1, id);
      }
    }
    if SameConversations(rows, meta0, meta1) {
      forall id
        ensures SameConversation(rows, meta0, meta1, id)
      {
        assert id in meta0.Keys + ConvIds(rows) <==> id in meta1.Keys + ConvIds(rows);
      }
    }
  }

  /** What a record says of a conversation can be lost unseen. */
  ghost predicate Dispensable(mapping: Mapping, rows: set<Message>, r: Rec, id: string) {
    id != "" && Describes(mapping, r, id) ==> id in ConvIds(rows) && ShownMeta(MetaOf(mapping.conversations(r.value)), id) == BLANK
  }

  lemma VanishedConversation(mapping: Mapping, rows: set<Message>, recs0: seq<Rec>, recs1: seq<Rec>, id: string)
    requires ConvOwners(mapping, recs0) && forall r :: r in recs1 ==> r in recs0
    ensures SameConversation(rows, MetaOf(ConvRows(mapping, recs0)), MetaOf(ConvRows(mapping, recs1)), id)
      <==> forall r :: r in recs0 && r !in recs1 ==> Dispensable(mapping, rows, r, id)
  {
    hide Describes, MetaOf, ConvRows, ConvIds;
    OwnedMeta(mapping, recs0, id);
    OwnedMeta(mapping, recs1, id);
  }

  // ---- loads of a growing log ----

  /** Every row of the whole-store tables comes from one record. */
  ghost predicate RowsOwned(mapping: Mapping, snap: Snapshot) {
    forall e :: WholeStore(e) ==> RowOwners(mapping, e, Records(snap, Targets(mapping, snap, e)))
  }

  ghost predicate ConvsOwned(mapping: Mapping, snap: Snapshot) {
    ConvOwners(mapping, Records(snap, Targets(mapping, snap, ConversationEntity)))
  }

  /** A mapped record of `prior` that `snap` no longer has. */
  ghost predicate Gone(mapping: Mapping, e: Entity, prior: Snapshot, snap: Snapshot, r: Rec) {
    r in Records(prior, Targets(mapping, prior, e)) && r !in Records(snap, Targets(mapping, snap, e))
  }

  /** Nothing that vanished from a mapped store was to be seen: no message, no row, no conversation but one with blank columns that
      has messages. */
  ghost predicate GoneUnseen(mapping: Mapping, self: Option<string>, prior: Snapshot, snap: Snapshot) {
    var rows := FullMessages(mapping, self, MessageRecords(mapping, prior)).Values;
    && (forall r :: Gone(mapping, MessageEntity, prior, snap, r) ==> MessagesOf(mapping, self, r) == [])
    && (forall r, id :: Gone(mapping, ConversationEntity, prior, snap, r) ==> Dispensable(mapping, rows, r, id))
    && (forall e, r, id :: WholeStore(e) && Gone(mapping, e, prior, snap, r) ==> !Writes(mapping, e, r, id))
  }

  /** The mapped stores of `snap` are those of `prior`, which the tripwire checks of messages and conversations; whole-store tables
      may have lost stores. */
  ghost predicate StoresKept(mapping: Mapping, prior: Snapshot, snap: Snapshot) {
    && TargetSet(mapping, snap, MessageEntity) == TargetSet(mapping, prior, MessageEntity)
    && TargetSet(mapping, snap, ConversationEntity) == TargetSet(mapping, prior, ConversationEntity)
    && forall e :: WholeStore(e) ==> TargetSet(mapping, snap, e) <= TargetSet(mapping, prior, e)
  }

  /** When the high-water mark did not move, a mapped store can only have lost records. */
  lemma OnlyGone(h: seq<Op>, files0: set<Op>, ext: seq<Op>, files1: set<Op>, bucketOf: BucketOf, mapping: Mapping, e: Entity,
                 prior: Snapshot, snap: Snapshot)
    requires Increasing(h + ext) && Represents(files0, h) && Represents(files1, h + ext)
    requires Loads(prior, files0, bucketOf) && Loads(snap, files1, bucketOf) && snap.maxSeq == prior.maxSeq
    requires TargetSet(mapping, snap, e) <= TargetSet(mapping, prior, e)
    ensures forall r :: r in Records(snap, Targets(mapping, snap, e)) ==> r in Records(prior, Targets(mapping, prior, e))
    ensures DistinctKeys(Records(prior, Targets(mapping, prior, e))) && DistinctKeys(Records(snap, Targets(mapping, snap, e)))
  {
    hide Increasing, Represents, Live, Records, DistinctKeys, Targets, TargetSet;
    NoOpExitExact(files0, h, files1, ext, prior.maxSeq);
    TargetsNoDup(mapping, prior, e);
    TargetsNoDup(mapping, snap, e);
    LoadedRecords(prior, files0, bucketOf, Targets(mapping, prior, e));
    LoadedRecords(snap, files1, bucketOf, Targets(mapping, snap, e));
    forall sk | sk in Targets(mapping, snap, e)
      ensures sk in Targets(mapping, prior, e)
    {
      assert sk in Elems(Targets(mapping, snap, e));
    }
  }

  /** Main result for the no-op exit, at the store: when the mark did not move, leaving a full build alone leaves a full build of the new
      snapshot exactly when nothing that vanished was to be seen. */
  lemma NoOpExitAtStore(h: seq<Op>, files0: set<Op>, ext: seq<Op>, files1: set<Op>, bucketOf: BucketOf, mapping: Mapping,
                        self: Option<string>, prior: Snapshot, snap: Snapshot, book: map<string, string>, indexed: bool, c: Contents)
    requires Increasing(h + ext) && Represents(files0, h) && Represents(files1, h + ext)
    requires Loads(prior, files0, bucketOf) && Loads(snap, files1, bucketOf) && snap.maxSeq == prior.maxSeq
    requires StoresKept(mapping, prior, snap) && OneOwner(mapping, self, MessageRecords(mapping, prior))
    requires ConvsOwned(mapping, prior) && RowsOwned(mapping, prior) && IsBuild(mapping, self, prior, book, indexed, c)
    ensures IsBuild(mapping, self, snap, book, indexed, c) <==> GoneUnseen(mapping, self, prior, snap)
  {
    hide IsBuild, GoneUnseen, SameShown, Increasing, Represents, Loads, OneOwner, StoresKept;
    KeptIsBuild(mapping, self, prior, snap, book, indexed, c);
    UnseenIsSameShown(h, files0, ext, files1, bucketOf, mapping, self, prior, snap);
  }

  lemma UnseenIsSameShown(h: seq<Op>, files0: set<Op>, ext: seq<Op>, files1: set<Op>, bucketOf: BucketOf, mapping: Mapping,
                          self: Option<string>, prior: Snapshot, snap: Snapshot)
    requires Increasing(h + ext) && Represents(files0, h) && Represents(files1, h + ext)
    requires Loads(prior, files0, bucketOf) && Loads(snap, files1, bucketOf) && snap.maxSeq == prior.maxSeq
    requires StoresKept(mapping, prior, snap) && OneOwner(mapping, self, MessageRecords(mapping, prior))
    requires ConvsOwned(mapping, prior) && RowsOwned(mapping, prior)
    ensures SameShown(mapping, self, prior, snap) <==> GoneUnseen(mapping, self, prior, snap)
  {
    hide Increasing, Represents, Loads, OneOwner, DistinctKeys, FullMessages, MessagesOf, RowTable, EntityRows, MetaOf,
         ConvRows, Records,
         TargetSet, Targets, Dispensable, Writes, RowOwners, ConvOwners, SameConversations;
    OnlyGone(h, files0, ext, files1, bucketOf, mapping, MessageEntity, prior, snap);
    OnlyGone(h, files0, ext, files1, bucketOf, mapping, ConversationEntity, prior, snap);
    VanishedMessages(mapping, self, MessageRecords(mapping, prior), MessageRecords(mapping, snap));
    var rows := FullMessages(mapping, self, MessageRecords(mapping, prior)).Values;
    VanishedConversations(mapping, rows, Records(prior, Targets(mapping, prior, ConversationEntity)),
                          Records(snap, Targets(mapping, snap, ConversationEntity)));
    forall e | WholeStore(e)
      ensures EntityTable(mapping, prior, e) == EntityTable(mapping, snap, e)
        <==> forall r, id :: Gone(mapping, e, prior, snap, r) ==> !Writes(mapping, e, r, id)
    {
      OnlyGone(h, files0, ext, files1, bucketOf, mapping, e, prior, snap);
      VanishedRows(mapping, e, Records(prior, Targets(mapping, prior, e)), Records(snap, Targets(mapping, snap, e)));
    }
  }

  /** A store named "s" with these records, newest number 2. */
  function Holding(recs: seq<Rec>): Snapshot {
    Snapshot(map["s" := recs], map["s" := StoreName(Some("d"), "s")], 2, false)
  }

  lemma HoldingRecords(recs: seq<Rec>)
    ensures forall e :: TargetSet(OneEach(), Holding(recs), e) == {"s"}
    ensures MessageRecords(OneEach(), Holding(recs)) == recs
  {
    Sorting.TextOrder();
    assert TargetSet(OneEach(), Holding(recs), MessageEntity) == {"s"};
    assert Sorting.Lists(Sorting.TextLess, ["s"], {"s"});
    Sorting.ListsUnique(Sorting.TextLess, Targets(OneEach(), Holding(recs), MessageEntity), ["s"], {"s"});
    assert ["s"][..0] == [];
    assert Records(Holding(recs), []) == [];
  }

  lemma HoldingLoads(recs: seq<Rec>, files: set<Op>)
    requires NoDup(recs) && Elems(recs) == Live(files) && IsMaxSeq(files, 2)
    ensures Loads(Holding(recs), files, k => Some("s"))
  {
    hide Live, IsMaxSeq;
    forall sk
      ensures NoDup(Bucket(Holding(recs), sk)) && Elems(Bucket(Holding(recs), sk)) == Part(Live(files), k => Some("s") == Some(sk))
    {
      if sk == "s" {
        assert Part(Live(files), k => Some("s") == Some(sk)) == Live(files);
      } else {
        assert Part(Live(files), k => Some("s") == Some(sk)) == {};
      }
    }
  }

  /** The run the no-op exit misses, at the store: the deleted message stays, although the mark, the mapped stores and the schema are
      what they were. */
  lemma ElidedStaysShown()
    ensures var a, b := Rec([1], 1, [1]), Rec([2], 2, [3]);
      var puts, gone := [Op([1], 1, Some([1])), Op([2], 2, Some([3]))], [Op([1], 3, None)];
      var prior, snap := Holding([a, b]), Holding([b]);
      && Increasing(puts + gone) && Represents(Elems(puts), puts) && Represents({puts[1]}, puts + gone)
      && Loads(prior, Elems(puts), k => Some("s")) && Loads(snap, {puts[1]}, k => Some("s"))
      && snap.maxSeq == prior.maxSeq && StoresKept(OneEach(), prior, snap)
      && ("c", "m") in FullMessages(OneEach(), None, MessageRecords(OneEach(), prior))
      && ("c", "m") !in FullMessages(OneEach(), None, MessageRecords(OneEach(), snap))
  {
    hide Increasing, Represents, Live, Newest, IsMaxSeq, FullMessages, OneEach, Loads, ToHex, ConvKind;
    var a, b := Rec([1], 1, [1]), Rec([2], 2, [3]);
    var puts := [Op([1], 1, Some([1])), Op([2], 2, Some([3]))];
    assert Elems(puts) == {puts[0], puts[1]};
    ElidedTombstone();
    ElidedLive();
    HoldingLoads([a, b], Elems(puts));
    HoldingLoads([b], {puts[1]});
    HoldingRecords([a, b]);
    HoldingRecords([b]);
    TablesOf(a, b, b);
    TablesOf(b, b, b);
  }

  lemma ElidedLive()
    ensures Live({Op([1], 1, Some([1])), Op([2], 2, Some([3]))}) == Elems([Rec([1], 1, [1]), Rec([2], 2, [3])])
    ensures Live({Op([2], 2, Some([3]))}) == Elems([Rec([2], 2, [3])])
  {
    var a, b := Op([1], 1, Some([1])), Op([2], 2, Some([3]));
    assert Newest({a, b}, a) && Newest({a, b}, b) && Newest({b}, b);
    assert Elems([Rec([1], 1, [1]), Rec([2], 2, [3])]) == {Rec([1], 1, [1]), Rec([2], 2, [3])};
  }

  /** When the mark did not move, a store lists the records it listed iff it has as many as before, which the exit could look at. */
  lemma NoOpExitByStore(h: seq<Op>, files0: set<Op>, ext: seq<Op>, files1: set<Op>, bucketOf: BucketOf, prior: Snapshot,
                        snap: Snapshot,
                        sk: string)
    requires Increasing(h + ext) && Represents(files0, h) && Represents(files1, h + ext)
    requires Loads(prior, files0, bucketOf) && Loads(snap, files1, bucketOf) && snap.maxSeq == prior.maxSeq
    ensures Elems(Bucket(prior, sk)) == Elems(Bucket(snap, sk)) <==> |Bucket(prior, sk)| == |Bucket(snap, sk)|
  {
    hide Increasing, Represents, Live;
    NoOpExitExact(files0, h, files1, ext, prior.maxSeq);
    NoDupCount(Bucket(prior, sk));
    NoDupCount(Bucket(snap, sk));
    assert Elems(Bucket(snap, sk)) == Part(Live(files1), k => bucketOf(k) == Some(sk));
    assert Elems(Bucket(prior, sk)) == Part(Live(files0), k => bucketOf(k) == Some(sk));
    SubsetByCount(Elems(Bucket(snap, sk)), Elems(Bucket(prior, sk)));
  }

  lemma {:induction false} SameRecordsIn(prior: Snapshot, snap: Snapshot, targets: seq<string>)
    requires forall sk :: sk in targets ==> Elems(Bucket(prior, sk)) == Elems(Bucket(snap, sk))
    ensures forall r :: r in Records(prior, targets) <==> r in Records(snap, targets)
  {
    if targets != [] {
      var n := |targets| - 1;
      var sk := targets[n];
      assert targets == targets[..n] + [sk];
      SameRecordsIn(prior, snap, targets[..n]);
      assert forall r :: r in Bucket(prior, sk) <==> r in Elems(Bucket(prior, sk));
      assert forall r :: r in Bucket(snap, sk) <==> r in Elems(Bucket(snap, sk));
    }
  }

  /** As many records as before in every mapped store: nothing there vanished, whatever became of the other stores. */
  lemma SameCountsUnseen(h: seq<Op>, files0: set<Op>, ext: seq<Op>, files1: set<Op>, bucketOf: BucketOf, mapping: Mapping,
                         self: Option<string>, prior: Snapshot, snap: Snapshot)
    requires Increasing(h + ext) && Represents(files0, h) && Represents(files1, h + ext)
    requires Loads(prior, files0, bucketOf) && Loads(snap, files1, bucketOf) && snap.maxSeq == prior.maxSeq
    requires forall e :: TargetSet(mapping, snap, e) == TargetSet(mapping, prior, e)
    requires forall e, sk :: sk in TargetSet(mapping, prior, e) ==> |Bucket(prior, sk)| == |Bucket(snap, sk)|
    ensures GoneUnseen(mapping, self, prior, snap)
  {
    hide Increasing, Represents, Loads, Bucket, TargetSet, FullMessages, Dispensable, Writes, MessagesOf, Records;
    forall e, r
      ensures !Gone(mapping, e, prior, snap, r)
    {
      TargetsNoDup(mapping, prior, e);
      SameTargetList(mapping, prior, snap, e);
      forall sk | sk in Targets(mapping, prior, e)
        ensures Elems(Bucket(prior, sk)) == Elems(Bucket(snap, sk))
      {
        assert sk in Elems(Targets(mapping, prior, e));
        NoOpExitByStore(h, files0, ext, files1, bucketOf, prior, snap, sk);
      }
      SameRecordsIn(prior, snap, Targets(mapping, prior, e));
    }
  }

  lemma SameTargetList(mapping: Mapping, prior: Snapshot, snap: Snapshot, e: Entity)
    requires TargetSet(mapping, snap, e) == TargetSet(mapping, prior, e)
    ensures Targets(mapping, snap, e) == Targets(mapping, prior, e)
  {
  }

  /** What is needed of the tables that are not rewritten from `prior` to `snap`. None are when the mark did not move: then nothing to be
      seen may have vanished, and each row needs one owner. The native engine may skip the whole-store tables. */
  ghost predicate Undisturbed(native: bool, mapping: Mapping, self: Option<string>, prior: Snapshot, snap: Snapshot) {
    && (snap.maxSeq == prior.maxSeq ==>
      && GoneUnseen(mapping, self, prior, snap) && ConvsOwned(mapping, prior)
      && forall e :: WholeStore(e) ==> TargetSet(mapping, snap, e) <= TargetSet(mapping, prior, e))
    && (native || snap.maxSeq == prior.maxSeq ==> RowsOwned(mapping, prior))
  }

  /** What every complete read of a log is expected to show: one schema, one user, one owner per message. */
  ghost predicate Expected(select: Snapshot -> Option<Mapping>, mapping: Mapping, self: Option<string>, snap: Snapshot) {
    && select(snap) == Some(mapping) && mapping.vote(MessageRecords(mapping, snap)) == self
    && OneOwner(mapping, self, MessageRecords(mapping, snap))
  }

  /** Main result for the session's hypothesis: two loads of one growing log, under any compaction, are steady. */
  lemma SteadyOverHistory(select: Snapshot -> Option<Mapping>, native: bool, mapping: Mapping, self: Option<string>,
                          h: seq<Op>, files0: set<Op>, ext: seq<Op>, files1: set<Op>, bucketOf: BucketOf, prior: Snapshot, snap: Snapshot)
    requires Increasing(h + ext) && Represents(files0, h) && Represents(files1, h + ext)
    requires Loads(prior, files0, bucketOf) && Loads(snap, files1, bucketOf)
    requires Expected(select, mapping, self, prior) && Expected(select, mapping, self, snap)
    requires Undisturbed(native, mapping, self, prior, snap)
    requires TargetSet(mapping, prior, MessageEntity) == TargetSet(mapping, snap, MessageEntity)
    requires TargetSet(mapping, prior, ConversationEntity) == TargetSet(mapping, snap, ConversationEntity)
    ensures Steady(select, native, mapping, self, prior, snap)
  {
    hide Live, OneOwner, ConvOwners, RowsOwned, FullMessages, Records, Increasing, Represents, Newest, AllReconcilable,
         SigsTell, Lists,
         GoneUnseen, SameShown, TargetSet;
    if snap.maxSeq == prior.maxSeq {
      UnseenIsSameShown(h, files0, ext, files1, bucketOf, mapping, self, prior, snap);
    } else {
      SameTargetList(mapping, prior, snap, MessageEntity);
      var targets := Targets(mapping, prior, MessageEntity);
      TargetsNoDup(mapping, prior, MessageEntity);
      LoadedRecords(prior, files0, bucketOf, targets);
      LoadedRecords(snap, files1, bucketOf, targets);
      forall r | r in MessageRecords(mapping, snap) && r.seqNo <= prior.maxSeq
        ensures r in MessageRecords(mapping, prior)
      {
        FloorOf(prior, files0, bucketOf);
        FloorCarries(files0, h, prior.maxSeq, files1, ext, r);
      }
      OneOwnerReconciles(mapping, self, MessageRecords(mapping, prior), prior.maxSeq, MessageRecords(mapping, snap));
      AllOf(mapping, self, MessageRecords(mapping, prior), prior.maxSeq, MessageRecords(mapping, snap));
      if native {
        SigsAreTelling(mapping, h, files0, ext, files1, bucketOf, prior, snap);
      }
    }
  }

  lemma FloorOf(snap: Snapshot, files: set<Op>, bucketOf: BucketOf)
    requires Lists(snap, files, bucketOf)
    ensures IsMaxSeq(files, snap.maxSeq)
  {
  }

  lemma AllOf(mapping: Mapping, self: Option<string>, recs0: seq<Rec>, floor: nat, recs1: seq<Rec>)
    requires forall k :: Reconcilable(mapping, self, FullMessages(mapping, self, recs0), floor, recs1, k)
    ensures AllReconcilable(mapping, self, FullMessages(mapping, self, recs0), floor, recs1)
  {
    hide Reconcilable, FullMessages;
  }

  lemma SigsAreTelling(mapping: Mapping, h: seq<Op>, files0: set<Op>, ext: seq<Op>, files1: set<Op>, bucketOf: BucketOf,
                       prior: Snapshot, snap: Snapshot)
    requires Increasing(h + ext) && Represents(files0, h) && Represents(files1, h + ext)
    requires Loads(prior, files0, bucketOf) && Loads(snap, files1, bucketOf) && RowsOwned(mapping, prior)
    ensures SigsTell(mapping, prior, snap)
  {
    hide RowOwners, EntityTable, EntitySig, Targets, Loads, Increasing, Represents;
    forall e | WholeStore(e) && EntitySig(prior, Targets(mapping, prior, e)) == EntitySig(snap, Targets(mapping, snap, e))
      ensures EntityTable(mapping, prior, e) == EntityTable(mapping, snap, e)
    {
      SkipIsReplace(mapping, e, h, files0, ext, files1, bucketOf, prior, snap);
    }
  }
}
