/** The message half of the incremental apply: exactly when the delta gives the messages of a full build. */
module Delta {
  import opened Base
  import opened Tables
  import opened Source

  /** Records written after the floor, in traversal order. */
  function Changed(recs: seq<Rec>, floor: nat): seq<Rec> {
    if recs == [] then []
    else
      var rest := Changed(recs[..|recs| - 1], floor);
      if recs[|recs| - 1].seqNo > floor then rest + [recs[|recs| - 1]] else rest
  }

  lemma {:induction false} ChangedElems(recs: seq<Rec>, floor: nat)
    ensures forall r :: r in Changed(recs, floor) <==> r in recs && r.seqNo > floor
  {
    if recs != [] {
      ChangedElems(recs[..|recs| - 1], floor);
      assert recs == recs[..|recs| - 1] + [recs[|recs| - 1]];
    }
  }

  /** Chains whose record is still live and was not rewritten: their stored rows survive the deletes. */
  ghost predicate KeptChain(recs: seq<Rec>, floor: nat, chainKey: string) {
    exists r :: r in recs && r.seqNo <= floor && ToHex(r.key) == chainKey
  }

  ghost function FullMessages(mapping: Mapping, self: Option<string>, recs: seq<Rec>): MessageTable {
    UpsertAll(map[], MessageRows(mapping, self, recs))
  }

  /** Delete missing and changed chains, then upsert the rows of the changed records. */
  ghost function DeltaMessages(mapping: Mapping, self: Option<string>, stored: MessageTable, floor: nat,
                               recs: seq<Rec>): MessageTable {
    var kept := map k | k in stored && KeptChain(recs, floor, stored[k].chainKey) :: stored[k];
    UpsertAll(kept, MessageRows(mapping, self, Changed(recs, floor)))
  }

  /** What a caller can check per key: when the full build would take the row from a record that was not
      rewritten, the stored row belongs to that record, and every rewritten row of the key is older. */
  ghost predicate Reconcilable(mapping: Mapping, self: Option<string>, stored: MessageTable, floor: nat, recs: seq<Rec>, k: Key) {
    var w := Winner(MessageRows(mapping, self, recs), k);
    w.Some? && KeptChain(recs, floor, w.value.chainKey) ==>
      && k in stored && stored[k].chainKey == w.value.chainKey
      && forall m :: m in MessageRows(mapping, self, Changed(recs, floor)) && KeyOf(m) == k ==> m.version < w.value.version
  }

  /** A record at or below the floor is the record the prior build read. */
  ghost predicate Carried(recs0: seq<Rec>, floor: nat, recs1: seq<Rec>) {
    forall r :: r in recs1 && r.seqNo <= floor ==> r in recs0
  }

  lemma KeyOfChain(recs: seq<Rec>, r: Rec, s: Rec)
    requires DistinctKeys(recs) && r in recs && s in recs && ToHex(r.key) == ToHex(s.key)
    ensures r == s
  {
    ToHexInjective(r.key, s.key);
  }

  /** The row a build keeps for `k` is the one its own record alone would give. */
  lemma {:induction false} OwnerWins(mapping: Mapping, self: Option<string>, recs: seq<Rec>, k: Key)
    requires DistinctKeys(recs) && Winner(MessageRows(mapping, self, recs), k).Some?
    ensures exists r :: (r in recs
      && ToHex(r.key) == Winner(MessageRows(mapping, self, recs), k).value.chainKey
      && Winner(MessagesOf(mapping, self, r), k) == Winner(MessageRows(mapping, self, recs), k))
  {
    var n := |recs| - 1;
    var p, r := recs[..n], recs[n];
    assert recs == p + [r];
    var a, b := MessageRows(mapping, self, p), MessagesOf(mapping, self, r);
    WinnerAppend(a, b, k);
    if Winner(b, k).Some? && Winner(a + b, k) == Winner(b, k) {
      WinnerIn(b, k);
      ShapeMessagesFacts(mapping.messages(r.value, self), ToHex(r.key));
    } else {
      OwnerWins(mapping, self, p, k);
    }
  }

  lemma KeptChainGrows(p: seq<Rec>, r: Rec, floor: nat)
    ensures forall c :: KeptChain(p, floor, c) ==> KeptChain(p + [r], floor, c)
    ensures r.seqNo <= floor ==> KeptChain(p + [r], floor, ToHex(r.key))
  {
    assert r in p + [r];
  }

  /** Dropping the carried records from a traversal either keeps the winner, or leaves something older. */
  lemma {:induction false} ChangedWinner(mapping: Mapping, self: Option<string>, recs: seq<Rec>, floor: nat, k: Key)
    requires DistinctKeys(recs)
    ensures var w, c := Winner(MessageRows(mapping, self, recs), k), Winner(MessageRows(mapping, self, Changed(recs, floor)), k);
      && (c.Some? ==> w.Some? && c.value.version <= w.value.version)
      && (w.Some? && !KeptChain(recs, floor, w.value.chainKey) ==> c == w)
  {
    hide MessagesOf, MessageRows, Winner, Changed, ToHex, KeptChain, DistinctKeys;
    if recs == [] {
      NothingRead(mapping, self, floor, k);
    } else {
      var n := |recs| - 1;
      var p, r := recs[..n], recs[n];
      assert recs == p + [r];
      DistinctFront(recs);
      ChangedWinner(mapping, self, p, floor, k);
      var b := MessagesOf(mapping, self, r);
      MessageRowsSnoc(mapping, self, p, r);
      MessageRowsSnoc(mapping, self, Changed(p, floor), r);
      ChangedSnoc(p, r, floor);
      WinnerAppend(MessageRows(mapping, self, p), b, k);
      WinnerAppend(MessageRows(mapping, self, Changed(p, floor)), b, k);
      KeptChainGrows(p, r, floor);
      if Winner(b, k).Some? {
        WinnerIn(b, k);
        OfRecord(mapping, self, r, Winner(b, k).value);
      }
    }
  }

  lemma NothingRead(mapping: Mapping, self: Option<string>, floor: nat, k: Key)
    ensures Winner(MessageRows(mapping, self, []), k) == None && Changed([], floor) == []
  {
  }

  lemma DistinctFront(recs: seq<Rec>)
    requires DistinctKeys(recs) && recs != []
    ensures DistinctKeys(recs[..|recs| - 1])
  {
  }

  lemma ChangedSnoc(p: seq<Rec>, r: Rec, floor: nat)
    ensures Changed(p + [r], floor) == if r.seqNo > floor then Changed(p, floor) + [r] else Changed(p, floor)
  {
    TakeAppend(p, r);
  }

  /** Whatever is stored, what it takes for the delta to leave the row of a full build under `k`: when that row comes from a record
      that was not rewritten, it is stored already and every rewritten row of the key is older; otherwise a stored row that
      survives the deletes is no newer than the one that arrives. */
  ghost predicate Agrees(mapping: Mapping, self: Option<string>, stored: MessageTable, floor: nat, recs: seq<Rec>, k: Key) {
    var w := Winner(MessageRows(mapping, self, recs), k);
    if w.Some? && KeptChain(recs, floor, w.value.chainKey) then
      && Lookup(stored, k) == w
      && forall m :: m in MessageRows(mapping, self, Changed(recs, floor)) && KeyOf(m) == k ==> m.version < w.value.version
    else
      k in stored && KeptChain(recs, floor, stored[k].chainKey) ==> w.Some? && stored[k].version <= w.value.version
  }

  /** Main result, for an arbitrary stored table: built from a lossy load, from duplicates, by earlier deltas or by nothing at all. */
  lemma DeltaAgreesAt(mapping: Mapping, self: Option<string>, stored: MessageTable, floor: nat, recs: seq<Rec>, k: Key)
    requires DistinctKeys(recs)
    ensures Lookup(DeltaMessages(mapping, self, stored, floor, recs), k) == Lookup(FullMessages(mapping, self, recs), k)
      <==> Agrees(mapping, self, stored, floor, recs, k)
  {
    hide MessagesOf, MessageRows, Winner, Changed, ToHex;
    var kept := map x | x in stored && KeptChain(recs, floor, stored[x].chainKey) :: stored[x];
    var all, rewritten := MessageRows(mapping, self, recs), MessageRows(mapping, self, Changed(recs, floor));
    UpsertAllLookup(map[], all, k);
    UpsertAllLookup(kept, rewritten, k);
    ChangedWinner(mapping, self, recs, floor, k);
    if Winner(all, k).Some? && KeptChain(recs, floor, Winner(all, k).value.chainKey) {
      KeptWinner(mapping, self, recs, floor, k);
    }
  }

  /** A winner that was not rewritten is no rewritten row, and beats them all iff it beats their winner. */
  lemma KeptWinner(mapping: Mapping, self: Option<string>, recs: seq<Rec>, floor: nat, k: Key)
    requires DistinctKeys(recs) && Winner(MessageRows(mapping, self, recs), k).Some?
    requires KeptChain(recs, floor, Winner(MessageRows(mapping, self, recs), k).value.chainKey)
    ensures var w := Winner(MessageRows(mapping, self, recs), k).value;
      var rewritten := MessageRows(mapping, self, Changed(recs, floor));
      && Winner(rewritten, k) != Some(w)
      && ((forall m :: m in rewritten && KeyOf(m) == k ==> m.version < w.version)
          <==> (Winner(rewritten, k).Some? ==> Winner(rewritten, k).value.version < w.version))
  {
    var w := Winner(MessageRows(mapping, self, recs), k).value;
    var rewritten := MessageRows(mapping, self, Changed(recs, floor));
    if Winner(rewritten, k).Some? {
      WinnerIn(rewritten, k);
      RewrittenNotKept(mapping, self, recs, floor, Winner(rewritten, k).value);
    }
    forall m | m in rewritten && KeyOf(m) == k
      ensures Winner(rewritten, k).Some? && m.version <= Winner(rewritten, k).value.version
    {
      WinnerBounds(rewritten, k, m);
    }
  }

  lemma RewrittenNotKept(mapping: Mapping, self: Option<string>, recs: seq<Rec>, floor: nat, m: Message)
    requires DistinctKeys(recs) && m in MessageRows(mapping, self, Changed(recs, floor))
    ensures !KeptChain(recs, floor, m.chainKey)
  {
    hide MessagesOf, MessageRows, Changed, ToHex;
    MessageRowsFacts(mapping, self, Changed(recs, floor));
    ChangedElems(recs, floor);
    var c :| c in Changed(recs, floor) && m.chainKey == ToHex(c.key);
    if u :| u in recs && u.seqNo <= floor && ToHex(u.key) == m.chainKey {
      KeyOfChain(recs, c, u);
    }
  }

  /** The two tables are equal iff every key agrees. */
  lemma DeltaAgrees(mapping: Mapping, self: Option<string>, stored: MessageTable, floor: nat, recs: seq<Rec>)
    requires DistinctKeys(recs)
    ensures DeltaMessages(mapping, self, stored, floor, recs) == FullMessages(mapping, self, recs)
      <==> forall k :: Agrees(mapping, self, stored, floor, recs, k)
  {
    hide Agrees;
    var d, f := DeltaMessages(mapping, self, stored, floor, recs), FullMessages(mapping, self, recs);
    forall k
      ensures Lookup(d, k) == Lookup(f, k) <==> Agrees(mapping, self, stored, floor, recs, k)
    {
      DeltaAgreesAt(mapping, self, stored, floor, recs, k);
    }
    if forall k :: Agrees(mapping, self, stored, floor, recs, k) {
      SameLookups(d, f);
    }
  }

  /** Over a build of an earlier complete load, with no assumption on duplicates: the delta and the full build agree on a key iff
      it is reconcilable. */
  lemma DeltaEqualsFullAt(mapping: Mapping, self: Option<string>, recs0: seq<Rec>, floor: nat, recs1: seq<Rec>, k: Key)
    requires DistinctKeys(recs0) && DistinctKeys(recs1) && Carried(recs0, floor, recs1)
    ensures var stored := FullMessages(mapping, self, recs0);
      Lookup(DeltaMessages(mapping, self, stored, floor, recs1), k) == Lookup(FullMessages(mapping, self, recs1), k)
      <==> Reconcilable(mapping, self, stored, floor, recs1, k)
  {
    hide MessagesOf, MessageRows, Winner, Changed, ToHex;
    var stored := FullMessages(mapping, self, recs0);
    DeltaAgreesAt(mapping, self, stored, floor, recs1, k);
    UpsertAllLookup(map[], MessageRows(mapping, self, recs0), k);
    if k in stored && KeptChain(recs1, floor, stored[k].chainKey) {
      KeptIsLive(mapping, self, recs0, floor, recs1, k);
      if Winner(MessageRows(mapping, self, recs1), k).value.chainKey == stored[k].chainKey {
        CarriedWinner(mapping, self, recs0, floor, recs1, k);
      }
    }
  }

  /** A stored row that survives the deletes is one its live record still has. */
  lemma KeptIsLive(mapping: Mapping, self: Option<string>, recs0: seq<Rec>, floor: nat, recs1: seq<Rec>, k: Key)
    requires DistinctKeys(recs0) && DistinctKeys(recs1) && Carried(recs0, floor, recs1)
    requires Winner(MessageRows(mapping, self, recs0), k).Some?
    requires KeptChain(recs1, floor, Winner(MessageRows(mapping, self, recs0), k).value.chainKey)
    ensures var s := Winner(MessageRows(mapping, self, recs0), k).value;
      && s in MessageRows(mapping, self, recs1)
      && Winner(MessageRows(mapping, self, recs1), k).Some?
      && s.version <= Winner(MessageRows(mapping, self, recs1), k).value.version
  {
    var s := Winner(MessageRows(mapping, self, recs0), k).value;
    OwnerWins(mapping, self, recs0, k);
    var r0 :| r0 in recs0 && ToHex(r0.key) == s.chainKey && Winner(MessagesOf(mapping, self, r0), k) == Some(s);
    var r1 :| r1 in recs1 && r1.seqNo <= floor && ToHex(r1.key) == s.chainKey;
    KeyOfChain(recs0, r0, r1);
    WinnerIn(MessagesOf(mapping, self, r0), k);
    MessageRowsOf(mapping, self, recs1, r1);
    WinnerBounds(MessageRows(mapping, self, recs1), k, s);
  }

  /** A stored row owned by the full build's winner's own carried record is that winner. */
  lemma CarriedWinner(mapping: Mapping, self: Option<string>, recs0: seq<Rec>, floor: nat, recs1: seq<Rec>, k: Key)
    requires DistinctKeys(recs0) && DistinctKeys(recs1) && Carried(recs0, floor, recs1)
    requires Winner(MessageRows(mapping, self, recs0), k).Some? && Winner(MessageRows(mapping, self, recs1), k).Some?
    requires Winner(MessageRows(mapping, self, recs0), k).value.chainKey == Winner(MessageRows(mapping, self, recs1), k).value.chainKey
    requires KeptChain(recs1, floor, Winner(MessageRows(mapping, self, recs1), k).value.chainKey)
    ensures Winner(MessageRows(mapping, self, recs0), k) == Winner(MessageRows(mapping, self, recs1), k)
  {
    var w := Winner(MessageRows(mapping, self, recs1), k);
    var s := Winner(MessageRows(mapping, self, recs0), k);
    var u :| u in recs1 && u.seqNo <= floor && ToHex(u.key) == w.value.chainKey;
    OwnerWins(mapping, self, recs0, k);
    OwnerWins(mapping, self, recs1, k);
    var r0 :| r0 in recs0 && ToHex(r0.key) == s.value.chainKey && Winner(MessagesOf(mapping, self, r0), k) == s;
    var r1 :| r1 in recs1 && ToHex(r1.key) == w.value.chainKey && Winner(MessagesOf(mapping, self, r1), k) == w;
    KeyOfChain(recs0, r0, u);
    KeyOfChain(recs1, r1, u);
  }

  /** The two tables are equal iff every key is reconcilable. */
  lemma DeltaEqualsFull(mapping: Mapping, self: Option<string>, recs0: seq<Rec>, floor: nat, recs1: seq<Rec>)
    requires DistinctKeys(recs0) && DistinctKeys(recs1) && Carried(recs0, floor, recs1)
    ensures var stored := FullMessages(mapping, self, recs0);
      DeltaMessages(mapping, self, stored, floor, recs1) == FullMessages(mapping, self, recs1)
      <==> forall k :: Reconcilable(mapping, self, stored, floor, recs1, k)
  {
    var stored := FullMessages(mapping, self, recs0);
    var d, f := DeltaMessages(mapping, self, stored, floor, recs1), FullMessages(mapping, self, recs1);
    forall k
      ensures Lookup(d, k) == Lookup(f, k) <==> Reconcilable(mapping, self, stored, floor, recs1, k)
    {
      DeltaEqualsFullAt(mapping, self, recs0, floor, recs1, k);
    }
    if forall k :: Reconcilable(mapping, self, stored, floor, recs1, k) {
      SameLookups(d, f);
    }
  }

  /** Every (conversation, id) comes from at most one live record. */
  ghost predicate OneOwner(mapping: Mapping, self: Option<string>, recs: seq<Rec>) {
    forall a, b :: a in MessageRows(mapping, self, recs) && b in MessageRows(mapping, self, recs) && KeyOf(a) == KeyOf(b) ==>
      a.chainKey == b.chainKey
  }

  /** One owner per key, before and after, is enough. */
  lemma OneOwnerReconciles(mapping: Mapping, self: Option<string>, recs0: seq<Rec>, floor: nat, recs1: seq<Rec>)
    requires DistinctKeys(recs0) && DistinctKeys(recs1) && Carried(recs0, floor, recs1)
    requires OneOwner(mapping, self, recs0) && OneOwner(mapping, self, recs1)
    ensures forall k :: Reconcilable(mapping, self, FullMessages(mapping, self, recs0), floor, recs1, k)
  {
    hide MessagesOf, MessageRows, Winner, Changed, ToHex;
    forall k
      ensures Reconcilable(mapping, self, FullMessages(mapping, self, recs0), floor, recs1, k)
    {
      var w := Winner(MessageRows(mapping, self, recs1), k);
      if w.Some? && KeptChain(recs1, floor, w.value.chainKey) {
        var rows0 := MessageRows(mapping, self, recs0);
        OwnerWins(mapping, self, recs1, k);
        var r :| r in recs1 && ToHex(r.key) == w.value.chainKey && Winner(MessagesOf(mapping, self, r), k) == w;
        var u :| u in recs1 && u.seqNo <= floor && ToHex(u.key) == w.value.chainKey;
        KeyOfChain(recs1, r, u);
        WinnerIn(MessagesOf(mapping, self, r), k);
        MessageRowsOf(mapping, self, recs0, r);
        WinnerBounds(rows0, k, w.value);
        WinnerIn(rows0, k);
        UpsertAllLookup(map[], rows0, k);
        MessageRowsOf(mapping, self, recs1, r);
        ChangedElems(recs1, floor);
        MessageRowsFacts(mapping, self, Changed(recs1, floor));
        forall m | m in MessageRows(mapping, self, Changed(recs1, floor))
          ensures KeyOf(m) != k
        {
          if KeyOf(m) == k {
            var c :| c in Changed(recs1, floor) && m.chainKey == ToHex(c.key) && m in MessagesOf(mapping, self, c);
            MessageRowsOf(mapping, self, recs1, c);
            KeyOfChain(recs1, c, r);
            assert false;
          }
        }
      }
    }
  }

  // ---- record by record, over anything stored ----

  /** A record that was not rewritten needs no second look: each row it gives is stored, and a stored row of it that it no longer
      gives is superseded by one at least as new. */
  ghost predicate UpToDate(mapping: Mapping, self: Option<string>, stored: MessageTable, recs: seq<Rec>, r: Rec) {
    forall k ::
      if Winner(MessagesOf(mapping, self, r), k).Some? then Lookup(stored, k) == Winner(MessagesOf(mapping, self, r), k)
      else
        k in stored && stored[k].chainKey == ToHex(r.key) ==>
          && Winner(MessageRows(mapping, self, recs), k).Some?
          && stored[k].version <= Winner(MessageRows(mapping, self, recs), k).value.version
  }

  ghost predicate AllUpToDate(mapping: Mapping, self: Option<string>, stored: MessageTable, floor: nat, recs: seq<Rec>) {
    forall r :: r in recs && r.seqNo <= floor ==> UpToDate(mapping, self, stored, recs, r)
  }

  /** With one owner per key, the row a record gives is the one the build keeps. */
  lemma OwnRowWins(mapping: Mapping, self: Option<string>, recs: seq<Rec>, r: Rec, k: Key)
    requires DistinctKeys(recs) && OneOwner(mapping, self, recs) && r in recs
    ensures Winner(MessagesOf(mapping, self, r), k).Some? ==>
      && Winner(MessageRows(mapping, self, recs), k) == Winner(MessagesOf(mapping, self, r), k)
      && Winner(MessageRows(mapping, self, recs), k).value.chainKey == ToHex(r.key)
    ensures var w := Winner(MessageRows(mapping, self, recs), k);
      w.Some? && w.value.chainKey == ToHex(r.key) ==> Winner(MessagesOf(mapping, self, r), k) == w
  {
    hide MessagesOf, MessageRows, Winner, ToHex;
    var rows, own := MessageRows(mapping, self, recs), Winner(MessagesOf(mapping, self, r), k);
    if own.Some? {
      WinnerIn(MessagesOf(mapping, self, r), k);
      OfRecord(mapping, self, r, own.value);
      MessageRowsOf(mapping, self, recs, r);
      WinnerBounds(rows, k, own.value);
      WinnerIn(rows, k);
    }
    if Winner(rows, k).Some? && Winner(rows, k).value.chainKey == ToHex(r.key) {
      OwnerWins(mapping, self, recs, k);
      var o :| o in recs && ToHex(o.key) == Winner(rows, k).value.chainKey && Winner(MessagesOf(mapping, self, o), k) == Winner(rows, k);
      KeyOfChain(recs, o, r);
    }
  }

  /** A rewritten record owns its keys alone. */
  lemma RewrittenElsewhere(mapping: Mapping, self: Option<string>, recs: seq<Rec>, floor: nat, k: Key)
    requires DistinctKeys(recs) && OneOwner(mapping, self, recs) && Winner(MessageRows(mapping, self, recs), k).Some?
    requires KeptChain(recs, floor, Winner(MessageRows(mapping, self, recs), k).value.chainKey)
    ensures forall m :: m in MessageRows(mapping, self, Changed(recs, floor)) ==> KeyOf(m) != k
  {
    hide MessagesOf, MessageRows, Winner, Changed, ToHex;
    WinnerIn(MessageRows(mapping, self, recs), k);
    ChangedElems(recs, floor);
    MessageRowsFacts(mapping, self, Changed(recs, floor));
    forall m | m in MessageRows(mapping, self, Changed(recs, floor))
      ensures KeyOf(m) != k
    {
      RewrittenNotKept(mapping, self, recs, floor, m);
      var c :| c in Changed(recs, floor) && m.chainKey == ToHex(c.key) && m in MessagesOf(mapping, self, c);
      MessageRowsOf(mapping, self, recs, c);
    }
  }

  /** Main result for a store that may have missed records: with one owner per key, a delta over any stored table gives the messages
      of a full build iff every live record at or below the floor is up to date in it. */
  lemma DeltaAgreesByRecord(mapping: Mapping, self: Option<string>, stored: MessageTable, floor: nat, recs: seq<Rec>)
    requires DistinctKeys(recs) && OneOwner(mapping, self, recs)
    ensures DeltaMessages(mapping, self, stored, floor, recs) == FullMessages(mapping, self, recs)
      <==> AllUpToDate(mapping, self, stored, floor, recs)
  {
    hide Agrees, UpToDate, DeltaMessages, FullMessages;
    DeltaAgrees(mapping, self, stored, floor, recs);
    if AllUpToDate(mapping, self, stored, floor, recs) {
      forall k
        ensures Agrees(mapping, self, stored, floor, recs, k)
      {
        UpToDateAgrees(mapping, self, stored, floor, recs, k);
      }
    }
    if forall k :: Agrees(mapping, self, stored, floor, recs, k) {
      forall r | r in recs && r.seqNo <= floor
        ensures UpToDate(mapping, self, stored, recs, r)
      {
        AgreeingIsUpToDate(mapping, self, stored, floor, recs, r);
      }
    }
  }

  lemma UpToDateAgrees(mapping: Mapping, self: Option<string>, stored: MessageTable, floor: nat, recs: seq<Rec>, k: Key)
    requires DistinctKeys(recs) && OneOwner(mapping, self, recs) && AllUpToDate(mapping, self, stored, floor, recs)
    ensures Agrees(mapping, self, stored, floor, recs, k)
  {
    hide MessagesOf, MessageRows, Winner, Changed, ToHex, OneOwner, DistinctKeys;
    var w := Winner(MessageRows(mapping, self, recs), k);
    if w.Some? && KeptChain(recs, floor, w.value.chainKey) {
      var r :| r in recs && r.seqNo <= floor && ToHex(r.key) == w.value.chainKey;
      OwnRowWins(mapping, self, recs, r, k);
      RewrittenElsewhere(mapping, self, recs, floor, k);
      assert UpToDate(mapping, self, stored, recs, r);
    } else if k in stored && KeptChain(recs, floor, stored[k].chainKey) {
      var r :| r in recs && r.seqNo <= floor && ToHex(r.key) == stored[k].chainKey;
      OwnRowWins(mapping, self, recs, r, k);
      assert UpToDate(mapping, self, stored, recs, r);
    }
  }

  lemma AgreeingIsUpToDate(mapping: Mapping, self: Option<string>, stored: MessageTable, floor: nat, recs: seq<Rec>, r: Rec)
    requires DistinctKeys(recs) && OneOwner(mapping, self, recs) && r in recs && r.seqNo <= floor
    requires forall k :: Agrees(mapping, self, stored, floor, recs, k)
    ensures UpToDate(mapping, self, stored, recs, r)
  {
    hide MessagesOf, MessageRows, Winner, Changed, ToHex, OneOwner, DistinctKeys;
    assert KeptChain(recs, floor, ToHex(r.key));
    forall k
      ensures Winner(MessagesOf(mapping, self, r), k).Some? ==> Lookup(stored, k) == Winner(MessagesOf(mapping, self, r), k)
      ensures Winner(MessagesOf(mapping, self, r), k).None? && k in stored && stored[k].chainKey == ToHex(r.key) ==>
        && Winner(MessageRows(mapping, self, recs), k).Some?
        && stored[k].version <= Winner(MessageRows(mapping, self, recs), k).value.version
    {
      assert Agrees(mapping, self, stored, floor, recs, k);
      OwnRowWins(mapping, self, recs, r, k);
    }
  }

  /** A record the stored build read as it still is, is up to date. */
  lemma ReadIsUpToDate(mapping: Mapping, self: Option<string>, seen: seq<Rec>, recs: seq<Rec>, r: Rec)
    requires DistinctKeys(seen) && OneOwner(mapping, self, seen) && r in seen
    ensures UpToDate(mapping, self, FullMessages(mapping, self, seen), recs, r)
  {
    hide MessagesOf, MessageRows, Winner, ToHex, OneOwner, DistinctKeys;
    forall k
      ensures Winner(MessagesOf(mapping, self, r), k).Some? ==>
        Lookup(FullMessages(mapping, self, seen), k) == Winner(MessagesOf(mapping, self, r), k)
      ensures Winner(MessagesOf(mapping, self, r), k).None? && k in FullMessages(mapping, self, seen) ==>
        FullMessages(mapping, self, seen)[k].chainKey != ToHex(r.key)
    {
      UpsertAllLookup(map[], MessageRows(mapping, self, seen), k);
      OwnRowWins(mapping, self, seen, r, k);
    }
  }

  // ---- runs of deltas ----

  /** What one refresh loads: the message records and the high-water mark they came with. */
  datatype Read = Read(recs: seq<Rec>, maxSeq: nat)

  /** The messages after a run of deltas that starts from `stored` and its mark. */
  ghost function Deltas(mapping: Mapping, self: Option<string>, stored: MessageTable, floor: nat,
                        loads: seq<Read>): MessageTable {
    if loads == [] then stored
    else
      var n := |loads| - 1;
      DeltaMessages(mapping, self, Deltas(mapping, self, stored, floor, loads[..n]), FloorAt(floor, loads, n), loads[n].recs)
  }

  function FloorAt(floor: nat, loads: seq<Read>, n: nat): nat
    requires n <= |loads|
  {
    if n == 0 then floor else loads[n - 1].maxSeq
  }

  /** Every message keeps the chain it first came from. */
  ghost predicate OwnedBy(owner: Key -> string, mapping: Mapping, self: Option<string>, recs: seq<Rec>) {
    forall m :: m in MessageRows(mapping, self, recs) ==> m.chainKey == owner(KeyOf(m))
  }

  ghost predicate TableOwnedBy(owner: Key -> string, t: MessageTable) {
    forall k :: k in t ==> t[k].chainKey == owner(k)
  }

  /** The stored rows of the record's chain are exactly those it gives. */
  ghost predicate Stores(mapping: Mapping, self: Option<string>, t: MessageTable, r: Rec) {
    forall k :: RowOf(t, k, ToHex(r.key)) == Winner(MessagesOf(mapping, self, r), k)
  }

  function RowOf(t: MessageTable, k: Key, chainKey: string): Option<Message> {
    if k in t && t[k].chainKey == chainKey then Some(t[k]) else None
  }

  lemma {:induction false} ChangedDistinct(recs: seq<Rec>, floor: nat)
    requires DistinctKeys(recs)
    ensures DistinctKeys(Changed(recs, floor))
  {
    if recs != [] {
      var n := |recs| - 1;
      ChangedDistinct(recs[..n], floor);
      ChangedElems(recs[..n], floor);
      var rest := Changed(recs[..n], floor);
      forall i | 0 <= i < |rest|
        ensures rest[i].key != recs[n].key
      {
        assert rest[i] in recs[..n];
      }
    }
  }

  /** Rows a record gives, owned, are in no other chain. */
  lemma OwnerGives(owner: Key -> string, mapping: Mapping, self: Option<string>, recs: seq<Rec>, r: Rec, k: Key)
    requires OwnedBy(owner, mapping, self, recs) && r in recs && Winner(MessagesOf(mapping, self, r), k).Some?
    ensures owner(k) == ToHex(r.key)
  {
    hide MessagesOf, MessageRows, Winner, ToHex;
    WinnerIn(MessagesOf(mapping, self, r), k);
    OfRecord(mapping, self, r, Winner(MessagesOf(mapping, self, r), k).value);
    MessageRowsOf(mapping, self, recs, r);
  }

  lemma OwnedIsOneOwner(owner: Key -> string, mapping: Mapping, self: Option<string>, recs: seq<Rec>)
    requires OwnedBy(owner, mapping, self, recs)
    ensures OneOwner(mapping, self, recs)
  {
    hide MessageRows;
  }

  /** A full build stores every one of its records. */
  lemma FullStores(mapping: Mapping, self: Option<string>, recs: seq<Rec>, r: Rec)
    requires DistinctKeys(recs) && OneOwner(mapping, self, recs) && r in recs
    ensures Stores(mapping, self, FullMessages(mapping, self, recs), r)
  {
    hide MessagesOf, MessageRows, Winner, ToHex, OneOwner, DistinctKeys;
    forall k
      ensures RowOf(FullMessages(mapping, self, recs), k, ToHex(r.key)) == Winner(MessagesOf(mapping, self, r), k)
    {
      UpsertAllLookup(map[], MessageRows(mapping, self, recs), k);
      OwnRowWins(mapping, self, recs, r, k);
    }
  }

  /** One delta: a rewritten record is stored afterwards, an unrewritten one iff it was before. */
  lemma DeltaStores(owner: Key -> string, mapping: Mapping, self: Option<string>, stored: MessageTable, floor: nat,
                    recs: seq<Rec>, r: Rec)
    requires DistinctKeys(recs) && OwnedBy(owner, mapping, self, recs) && TableOwnedBy(owner, stored) && r in recs
    ensures var t := DeltaMessages(mapping, self, stored, floor, recs);
      if r.seqNo > floor then Stores(mapping, self, t, r) else Stores(mapping, self, t, r) <==> Stores(mapping, self, stored, r)
  {
    hide MessagesOf, MessageRows, Winner, Changed, ToHex, DistinctKeys, DeltaMessages;
    var t := DeltaMessages(mapping, self, stored, floor, recs);
    if r.seqNo > floor {
      forall k
        ensures RowOf(t, k, ToHex(r.key)) == Winner(MessagesOf(mapping, self, r), k)
      {
        RewrittenStored(owner, mapping, self, stored, floor, recs, r, k);
      }
    } else {
      forall k
        ensures RowOf(t, k, ToHex(r.key)) == RowOf(stored, k, ToHex(r.key))
      {
        UnrewrittenStays(owner, mapping, self, stored, floor, recs, r, k);
      }
    }
  }

  lemma UnrewrittenStays(owner: Key -> string, mapping: Mapping, self: Option<string>, stored: MessageTable, floor: nat,
                         recs: seq<Rec>,
                         r: Rec, k: Key)
    requires DistinctKeys(recs) && OwnedBy(owner, mapping, self, recs) && TableOwnedBy(owner, stored) && r in recs && r.seqNo <= floor
    ensures RowOf(DeltaMessages(mapping, self, stored, floor, recs), k, ToHex(r.key)) == RowOf(stored, k, ToHex(r.key))
  {
    hide MessagesOf, MessageRows, Winner, Changed, ToHex, DistinctKeys;
    var kept := map x | x in stored && KeptChain(recs, floor, stored[x].chainKey) :: stored[x];
    var rewritten := MessageRows(mapping, self, Changed(recs, floor));
    UpsertAllLookup(kept, rewritten, k);
    assert KeptChain(recs, floor, ToHex(r.key));
    if Winner(rewritten, k).Some? {
      WinnerIn(rewritten, k);
      RewrittenNotKept(mapping, self, recs, floor, Winner(rewritten, k).value);
      RewrittenOwned(owner, mapping, self, recs, floor);
    }
  }

  lemma RewrittenOwned(owner: Key -> string, mapping: Mapping, self: Option<string>, recs: seq<Rec>, floor: nat)
    requires OwnedBy(owner, mapping, self, recs)
    ensures OwnedBy(owner, mapping, self, Changed(recs, floor))
  {
    hide MessagesOf, MessageRows, Changed;
    MessageRowsFacts(mapping, self, Changed(recs, floor));
    ChangedElems(recs, floor);
    forall m | m in MessageRows(mapping, self, Changed(recs, floor))
      ensures m.chainKey == owner(KeyOf(m))
    {
      var c :| c in Changed(recs, floor) && m in MessagesOf(mapping, self, c);
      MessageRowsOf(mapping, self, recs, c);
    }
  }

  lemma RewrittenStored(owner: Key -> string, mapping: Mapping, self: Option<string>, stored: MessageTable, floor: nat,
                        recs: seq<Rec>,
                        r: Rec, k: Key)
    requires DistinctKeys(recs) && OwnedBy(owner, mapping, self, recs) && TableOwnedBy(owner, stored) && r in recs && r.seqNo > floor
    ensures RowOf(DeltaMessages(mapping, self, stored, floor, recs), k, ToHex(r.key)) == Winner(MessagesOf(mapping, self, r), k)
  {
    hide MessagesOf, MessageRows, Winner, Changed, ToHex, DistinctKeys;
    var kept := map x | x in stored && KeptChain(recs, floor, stored[x].chainKey) :: stored[x];
    var late := Changed(recs, floor);
    UpsertAllLookup(kept, MessageRows(mapping, self, late), k);
    ChangedElems(recs, floor);
    ChangedDistinct(recs, floor);
    RewrittenOwned(owner, mapping, self, recs, floor);
    OwnedIsOneOwner(owner, mapping, self, late);
    OwnRowWins(mapping, self, late, r, k);
    if Winner(MessagesOf(mapping, self, r), k).Some? {
      OwnerGives(owner, mapping, self, recs, r, k);
    }
    if u :| u in recs && u.seqNo <= floor && ToHex(u.key) == ToHex(r.key) {
      KeyOfChain(recs, u, r);
    }
    if Winner(MessageRows(mapping, self, late), k).Some? {
      WinnerIn(MessageRows(mapping, self, late), k);
    }
  }

  /** What a delta leaves is owned alike, and every row belongs to a live record. */
  lemma DeltaOwned(owner: Key -> string, mapping: Mapping, self: Option<string>, stored: MessageTable, floor: nat, recs: seq<Rec>)
    requires OwnedBy(owner, mapping, self, recs) && TableOwnedBy(owner, stored)
    ensures var t := DeltaMessages(mapping, self, stored, floor, recs);
      TableOwnedBy(owner, t) && forall k :: k in t ==> exists r :: r in recs && t[k].chainKey == ToHex(r.key)
  {
    hide MessagesOf, MessageRows, Winner, Changed, ToHex;
    var t := DeltaMessages(mapping, self, stored, floor, recs);
    var kept := map x | x in stored && KeptChain(recs, floor, stored[x].chainKey) :: stored[x];
    var rewritten := MessageRows(mapping, self, Changed(recs, floor));
    RewrittenOwned(owner, mapping, self, recs, floor);
    MessageRowsFacts(mapping, self, Changed(recs, floor));
    ChangedElems(recs, floor);
    forall k | k in t
      ensures t[k].chainKey == owner(k) && exists r :: r in recs && t[k].chainKey == ToHex(r.key)
    {
      UpsertAllLookup(kept, rewritten, k);
      assert Lookup(t, k).Some?;
      if Winner(rewritten, k).Some? && t[k] == Winner(rewritten, k).value {
        WinnerIn(rewritten, k);
      }
    }
  }

  /** A table whose rows belong to live records is the full build iff it stores each of them. */
  lemma StoresAll(owner: Key -> string, mapping: Mapping, self: Option<string>, t: MessageTable, recs: seq<Rec>)
    requires DistinctKeys(recs) && OwnedBy(owner, mapping, self, recs) && TableOwnedBy(owner, t)
    requires forall k :: k in t ==> exists r :: r in recs && t[k].chainKey == ToHex(r.key)
    ensures t == FullMessages(mapping, self, recs) <==> forall r :: r in recs ==> Stores(mapping, self, t, r)
  {
    hide MessagesOf, MessageRows, Winner, ToHex, DistinctKeys, FullMessages;
    var f := FullMessages(mapping, self, recs);
    OwnedIsOneOwner(owner, mapping, self, recs);
    forall r | r in recs
      ensures Stores(mapping, self, f, r)
    {
      FullStores(mapping, self, recs, r);
    }
    FullChains(mapping, self, recs);
    if forall r :: r in recs ==> Stores(mapping, self, t, r) {
      forall k
        ensures Lookup(t, k) == Lookup(f, k)
      {
        if k in t {
          var r :| r in recs && t[k].chainKey == ToHex(r.key);
          assert RowOf(t, k, ToHex(r.key)) == RowOf(f, k, ToHex(r.key));
        }
        if k in f {
          var r :| r in recs && f[k].chainKey == ToHex(r.key);
          assert RowOf(t, k, ToHex(r.key)) == RowOf(f, k, ToHex(r.key));
        }
      }
      SameLookups(t, f);
    }
  }

  lemma FullChains(mapping: Mapping, self: Option<string>, recs: seq<Rec>)
    ensures var f := FullMessages(mapping, self, recs);
      forall k :: k in f ==> exists r :: r in recs && f[k].chainKey == ToHex(r.key)
  {
    hide MessagesOf, MessageRows, Winner, ToHex;
    var f := FullMessages(mapping, self, recs);
    MessageRowsFacts(mapping, self, recs);
    forall k | k in f
      ensures exists r :: r in recs && f[k].chainKey == ToHex(r.key)
    {
      UpsertAllLookup(map[], MessageRows(mapping, self, recs), k);
      WinnerIn(MessageRows(mapping, self, recs), k);
    }
  }

  /** Complete loads one after the other: each carries over what the one before it had at or below its mark. */
  ghost predicate ReadsFollow(owner: Key -> string, mapping: Mapping, self: Option<string>, floor: nat, loads: seq<Read>) {
    && (forall i :: 0 <= i < |loads| ==>
          DistinctKeys(loads[i].recs) && OwnedBy(owner, mapping, self, loads[i].recs) && floor <= loads[i].maxSeq)
    && (forall i :: 1 <= i < |loads| ==> Carried(loads[i - 1].recs, loads[i - 1].maxSeq, loads[i].recs))
  }

  lemma {:induction false} RunStores(owner: Key -> string, mapping: Mapping, self: Option<string>, stored: MessageTable,
                                     floor: nat,
                                     loads: seq<Read>)
    requires TableOwnedBy(owner, stored) && ReadsFollow(owner, mapping, self, floor, loads)
    ensures TableOwnedBy(owner, Deltas(mapping, self, stored, floor, loads))
    ensures loads != [] ==> forall r :: r in loads[|loads| - 1].recs ==>
      (Stores(mapping, self, Deltas(mapping, self, stored, floor, loads), r) <==> (r.seqNo <= floor ==> Stores(mapping, self, stored, r)))
  {
    hide MessageRows, ToHex, DistinctKeys, DeltaMessages, Stores, OwnedBy, TableOwnedBy;
    if loads != [] {
      var n := |loads| - 1;
      var before, recs, at := Deltas(mapping, self, stored, floor, loads[..n]), loads[n].recs, FloorAt(floor, loads, n);
      RunStores(owner, mapping, self, stored, floor, loads[..n]);
      DeltaOwned(owner, mapping, self, before, at, recs);
      forall r | r in recs
        ensures Stores(mapping, self, Deltas(mapping, self, stored, floor, loads), r) <==>
          (r.seqNo <= floor ==> Stores(mapping, self, stored, r))
      {
        DeltaStores(owner, mapping, self, before, at, recs, r);
      }
    }
  }

  /** Main result over any number of deltas, from any stored table: as long as messages keep their chains, the messages are those of a
      full build iff each live record at or below the FIRST mark was stored exactly from the start. What was written since is right. */
  lemma RunAgrees(owner: Key -> string, mapping: Mapping, self: Option<string>, stored: MessageTable, floor: nat,
                  loads: seq<Read>)
    requires TableOwnedBy(owner, stored) && ReadsFollow(owner, mapping, self, floor, loads) && loads != []
    ensures var recs := loads[|loads| - 1].recs;
      Deltas(mapping, self, stored, floor, loads) == FullMessages(mapping, self, recs)
      <==> forall r :: r in recs && r.seqNo <= floor ==> Stores(mapping, self, stored, r)
  {
    hide MessageRows, ToHex, DistinctKeys, DeltaMessages, Stores, OwnedBy, TableOwnedBy, FullMessages;
    var n := |loads| - 1;
    var before, recs, at := Deltas(mapping, self, stored, floor, loads[..n]), loads[n].recs, FloorAt(floor, loads, n);
    RunStores(owner, mapping, self, stored, floor, loads);
    RunStores(owner, mapping, self, stored, floor, loads[..n]);
    DeltaOwned(owner, mapping, self, before, at, recs);
    StoresAll(owner, mapping, self, Deltas(mapping, self, stored, floor, loads), recs);
  }

  // ---- runs that lose a message ----

  ghost predicate NothingOf(t: MessageTable, chainKey: string) {
    forall k :: k in t ==> t[k].chainKey != chainKey
  }

  lemma {:induction false} UpsertNothingOf(t: MessageTable, rows: seq<Message>, chainKey: string)
    requires NothingOf(t, chainKey) && forall m :: m in rows ==> m.chainKey != chainKey
    ensures NothingOf(UpsertAll(t, rows), chainKey)
  {
    if rows != [] {
      assert rows == rows[..|rows| - 1] + [rows[|rows| - 1]];
      UpsertNothingOf(t, rows[..|rows| - 1], chainKey);
    }
  }

  /** A record a lossy build missed is never read again while it stays at or below the floor: a delta leaves nothing of it in the
      table (so neither does the next one), although a full build takes the row from it. */
  lemma MissedStaysMissed(mapping: Mapping, self: Option<string>, stored: MessageTable, floor: nat, recs: seq<Rec>, r: Rec,
                          k: Key)
    requires DistinctKeys(recs) && OneOwner(mapping, self, recs) && r in recs && r.seqNo <= floor
    requires Winner(MessagesOf(mapping, self, r), k).Some? && NothingOf(stored, ToHex(r.key))
    ensures NothingOf(DeltaMessages(mapping, self, stored, floor, recs), ToHex(r.key))
    ensures k in FullMessages(mapping, self, recs) && FullMessages(mapping, self, recs)[k].chainKey == ToHex(r.key)
  {
    hide MessagesOf, MessageRows, Winner, Changed, ToHex;
    var rewritten := MessageRows(mapping, self, Changed(recs, floor));
    assert KeptChain(recs, floor, ToHex(r.key));
    forall m | m in rewritten
      ensures m.chainKey != ToHex(r.key)
    {
      RewrittenNotKept(mapping, self, recs, floor, m);
    }
    var kept := map x | x in stored && KeptChain(recs, floor, stored[x].chainKey) :: stored[x];
    UpsertNothingOf(kept, rewritten, ToHex(r.key));
    OwnRowWins(mapping, self, recs, r, k);
    UpsertAllLookup(map[], MessageRows(mapping, self, recs), k);
  }

  lemma OfRecord(mapping: Mapping, self: Option<string>, r: Rec, m: Message)
    requires m in MessagesOf(mapping, self, r)
    ensures m.chainKey == ToHex(r.key)
  {
    ShapeMessagesFacts(mapping.messages(r.value, self), ToHex(r.key));
  }

  function Body(id: string, version: int): Message {
    Message("c", id, "", version, 0, "p", "", "", false, false, false, false, "", None, id)
  }

  /** Values 1 and 2 are two versions of one message; 3 and 4 are two others. */
  function BodyOf(value: Bytes): Message {
    if value == [1] then Body("m", 1) else if value == [2] then Body("m", 2) else if value == [3] then Body("n", 1) else Body("o", 1)
  }

  function OneEach(): Mapping {
    Mapping((e, s) => true, (v: Bytes, self: Option<string>) => [BodyOf(v)], (v: Bytes) => [], (e: Entity, r: Rec) => [],
            (rs: seq<Rec>) => None)
  }

  function OneRow(r: Rec): Message {
    BodyOf(r.value).(chainKey := ToHex(r.key), kind := ConvKind("c"))
  }

  lemma OneRowEach(r: Rec)
    ensures MessagesOf(OneEach(), None, r) == [OneRow(r)]
  {
    var bodies := OneEach().messages(r.value, None);
    assert bodies[..0] == [];
    assert ShapeMessages(bodies[..0], ToHex(r.key)) == [];
  }

  lemma OneMoreRow(p: seq<Rec>, r: Rec)
    ensures FullMessages(OneEach(), None, p + [r]) == Upsert(FullMessages(OneEach(), None, p), OneRow(r))
  {
    OneRowEach(r);
    MessageRowsSnoc(OneEach(), None, p, r);
    TakeAppend(MessageRows(OneEach(), None, p), OneRow(r));
  }

  lemma TablesOf(a: Rec, b: Rec, c: Rec)
    ensures FullMessages(OneEach(), None, [a]) == Upsert(map[], OneRow(a))
    ensures FullMessages(OneEach(), None, [a, b]) == Upsert(Upsert(map[], OneRow(a)), OneRow(b))
    ensures FullMessages(OneEach(), None, [a, b, c]) == Upsert(Upsert(Upsert(map[], OneRow(a)), OneRow(b)), OneRow(c))
  {
    assert [] + [a] == [a] && [a] + [b] == [a, b] && [a, b] + [c] == [a, b, c];
    OneMoreRow([], a);
    OneMoreRow([a], b);
    OneMoreRow([a, b], c);
  }

  lemma ChangedOf(a: Rec, b: Rec, c: Rec, floor: nat)
    requires a.seqNo <= floor && b.seqNo <= floor < c.seqNo
    ensures Changed([a], floor) == [] && Changed([a, b, c], floor) == [c]
  {
    assert [a][..0] == [] && [a, b][..1] == [a] && [a, b, c][..2] == [a, b];
    assert Changed([a], floor) == [];
    assert Changed([a, b], floor) == [];
  }

  /** Deleting the newer twin's record removes the row; the older twin is below the floor and is never read again. */
  lemma DuplicateLost()
    ensures var older, newer := Rec([1], 1, [1]), Rec([2], 2, [2]);
      var stored := FullMessages(OneEach(), None, [older, newer]);
      && DistinctKeys([older, newer]) && Carried([older, newer], 2, [older])
      && ("c", "m") in FullMessages(OneEach(), None, [older])
      && ("c", "m") !in DeltaMessages(OneEach(), None, stored, 2, [older])
  {
    var older, newer := Rec([1], 1, [1]), Rec([2], 2, [2]);
    TablesOf(older, newer, newer);
    ChangedOf(older, older, Rec([3], 3, []), 2);
    if KeptChain([older], 2, ToHex(newer.key)) {
      ToHexInjective(older.key, newer.key);
    }
  }

  lemma OnlyRow(t: MessageTable, c: Rec)
    ensures UpsertAll(t, MessageRows(OneEach(), None, [c])) == Upsert(t, OneRow(c))
  {
    hide ToHex, ConvKind;
    OneRowEach(c);
    MessageRowsSnoc(OneEach(), None, [], c);
    assert [] + [c] == [c] && [] + [OneRow(c)] == [OneRow(c)];
    TakeAppend([], OneRow(c));
  }

  /** Only `c` was written since: the rows of `a` and `b` stay as they are stored. */
  lemma DeltaOf(stored: MessageTable, floor: nat, a: Rec, b: Rec, c: Rec)
    requires a.seqNo <= floor && b.seqNo <= floor < c.seqNo
    requires forall k :: k in stored ==> stored[k].chainKey == ToHex(a.key) || stored[k].chainKey == ToHex(b.key)
    ensures DeltaMessages(OneEach(), None, stored, floor, [a, b, c]) == Upsert(stored, OneRow(c))
  {
    hide ToHex, ConvKind, UpsertAll, MessageRows, Changed, OneEach, OneRow, Upsert;
    assert a in [a, b, c] && b in [a, b, c];
    var kept := map x | x in stored && KeptChain([a, b, c], floor, stored[x].chainKey) :: stored[x];
    assert kept == stored;
    ChangedOf(a, b, c, floor);
    OnlyRow(stored, c);
  }

  lemma RowsOf(a: Rec, b: Rec, c: Rec)
    ensures MessageRows(OneEach(), None, [a, b, c]) == [OneRow(a), OneRow(b), OneRow(c)]
  {
    hide ToHex, ConvKind, OneEach, OneRow, MessageRows;
    OneRowEach(a);
    OneRowEach(b);
    OneRowEach(c);
    MessageRowsSnoc(OneEach(), None, [], a);
    MessageRowsSnoc(OneEach(), None, [a], b);
    MessageRowsSnoc(OneEach(), None, [a, b], c);
    assert [] + [a] == [a] && [a] + [b] == [a, b] && [a, b] + [c] == [a, b, c];
    NoRows();
  }

  lemma DistinctMessages(a: Rec, b: Rec, c: Rec)
    requires BodyOf(a.value).id != BodyOf(b.value).id && BodyOf(a.value).id != BodyOf(c.value).id &&
      BodyOf(b.value).id != BodyOf(c.value).id
    ensures OneOwner(OneEach(), None, [a, b, c])
  {
    hide ToHex, ConvKind, OneEach, MessageRows, BodyOf;
    RowsOf(a, b, c);
    assert forall m :: m in [OneRow(a), OneRow(b), OneRow(c)] ==> m == OneRow(a) || m == OneRow(b) || m == OneRow(c);
  }

  lemma NoRows()
    ensures MessageRows(OneEach(), None, []) == []
  {
  }

  /** A lossy first load lists `b` but not `a`, whose table could not be read; the next, complete load also lists `c`. The delta loads
      only `c`: the message of `a` stays away, though every key has one owner. */
  lemma LossyLosesUnread()
    ensures var a, b, c := Rec([1], 1, [1]), Rec([2], 2, [3]), Rec([3], 3, [4]);
      var stored := FullMessages(OneEach(), None, [b]);
      var now := DeltaMessages(OneEach(), None, stored, 2, [a, b, c]);
      && OneOwner(OneEach(), None, [a, b, c])
      && ("c", "m") in FullMessages(OneEach(), None, [a, b, c]) && ("c", "m") !in now
      && ("c", "n") in now && ("c", "o") in now
  {
    hide ToHex, ConvKind, FullMessages, DeltaMessages, OneEach, OneOwner;
    var a, b, c := Rec([1], 1, [1]), Rec([2], 2, [3]), Rec([3], 3, [4]);
    TablesOf(a, b, c);
    TablesOf(b, b, b);
    DistinctMessages(a, b, c);
    DeltaOf(FullMessages(OneEach(), None, [b]), 2, a, b, c);
  }

  /** The lossy load may also list a record in a version that was already overwritten: the old text then stays. */
  lemma LossyKeepsStale()
    ensures var old1, new1, b, c := Rec([1], 1, [1]), Rec([1], 2, [2]), Rec([2], 3, [3]), Rec([3], 4, [4]);
      var stored := FullMessages(OneEach(), None, [old1, b]);
      var now, full := DeltaMessages(OneEach(), None, stored, 3, [new1, b, c]), FullMessages(OneEach(), None, [new1, b, c]);
      && ("c", "m") in now && now[("c", "m")].version == 1
      && ("c", "m") in full && full[("c", "m")].version == 2
  {
    hide ToHex, ConvKind, FullMessages, DeltaMessages, OneEach;
    var old1, new1, b, c := Rec([1], 1, [1]), Rec([1], 2, [2]), Rec([2], 3, [3]), Rec([3], 4, [4]);
    TablesOf(old1, b, b);
    TablesOf(new1, b, c);
    DeltaOf(FullMessages(OneEach(), None, [old1, b]), 3, new1, b, c);
  }

  /** Keeping chains matters. A lossy load listed an old version of record 1 that carried message m; its new version, unread, does not,
      and a later record 3 carries an older m. The stale row keeps m out, goes when record 1 is deleted, and m is never read again,
      although the one live record at or below the first mark was stored exactly. */
  lemma LossyOvertakes()
    ensures var old1, new1, b, late := Rec([1], 1, [2]), Rec([1], 2, [4]), Rec([2], 3, [3]), Rec([3], 4, [1]);
      var stored := FullMessages(OneEach(), None, [old1, b]);
      var now := DeltaMessages(OneEach(), None, DeltaMessages(OneEach(), None, stored, 3, [new1, b, late]), 4, [b, late]);
      && OneOwner(OneEach(), None, [new1, b, late]) && Stores(OneEach(), None, stored, b)
      && ("c", "m") !in now && ("c", "m") in FullMessages(OneEach(), None, [b, late])
  {
    hide ToHex, ConvKind, FullMessages, DeltaMessages, OneEach, OneOwner, Stores;
    var old1, new1, b, late := Rec([1], 1, [2]), Rec([1], 2, [4]), Rec([2], 3, [3]), Rec([3], 4, [1]);
    var stored := FullMessages(OneEach(), None, [old1, b]);
    TablesOf(old1, b, b);
    TablesOf(b, late, late);
    DistinctMessages(new1, b, late);
    DeltaOf(stored, 3, new1, b, late);
    assert DeltaMessages(OneEach(), None, stored, 3, [new1, b, late]) == stored;
    ToHexApart(old1, b, late);
    NothingLate(stored, 4, b, late);
    StoresOwn(old1, b);
  }

  lemma ToHexApart(a: Rec, b: Rec, c: Rec)
    requires a.key != b.key && a.key != c.key && b.key != c.key
    ensures ToHex(a.key) != ToHex(b.key) && ToHex(a.key) != ToHex(c.key) && ToHex(b.key) != ToHex(c.key)
  {
    if ToHex(a.key) == ToHex(b.key) { ToHexInjective(a.key, b.key); }
    if ToHex(a.key) == ToHex(c.key) { ToHexInjective(a.key, c.key); }
    if ToHex(b.key) == ToHex(c.key) { ToHexInjective(b.key, c.key); }
  }

  /** Nothing was written since: the rows of other chains go. */
  lemma NothingLate(stored: MessageTable, floor: nat, a: Rec, b: Rec)
    requires a.seqNo <= floor && b.seqNo <= floor
    ensures forall k :: k in DeltaMessages(OneEach(), None, stored, floor, [a, b]) ==>
      k in stored && (stored[k].chainKey == ToHex(a.key) || stored[k].chainKey == ToHex(b.key))
  {
    hide ToHex, OneEach;
    assert [a, b][..1] == [a] && [a][..0] == [];
    assert Changed([a], floor) == [];
    assert Changed([a, b], floor) == [];
  }

  lemma StoresOwn(a: Rec, b: Rec)
    requires BodyOf(a.value).id != BodyOf(b.value).id && a.key != b.key
    ensures Stores(OneEach(), None, FullMessages(OneEach(), None, [a, b]), b)
  {
    hide ToHex, ConvKind, OneEach, MessagesOf, OneOwner;
    TwoRows(a, b);
    FullStores(OneEach(), None, [a, b], b);
  }

  lemma TwoRows(a: Rec, b: Rec)
    requires BodyOf(a.value).id != BodyOf(b.value).id && a.key != b.key
    ensures DistinctKeys([a, b]) && OneOwner(OneEach(), None, [a, b])
  {
    hide ToHex, ConvKind, OneEach, BodyOf, MessageRows;
    OneRowEach(a);
    OneRowEach(b);
    MessageRowsSnoc(OneEach(), None, [], a);
    MessageRowsSnoc(OneEach(), None, [a], b);
    assert [] + [a] == [a] && [a] + [b] == [a, b];
    NoRows();
    assert MessageRows(OneEach(), None, [a, b]) == [OneRow(a), OneRow(b)];
  }
}
