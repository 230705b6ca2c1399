/** The chat store: tables changed in place by the full build and by the incremental apply. */
module ChatStores {
  import opened Base
  import opened Tables
  import opened Source
  import opened MessageFold
  import opened Recompute
  import opened Delta
  import opened Builds
  import opened Handles
  import opened Sorting
  import Refresh

  /** The schema tripwire: the mapped message and conversation stores are those of the full ingest. */
  predicate SameTargets(mapping: Mapping, state: IngestState, snap: Snapshot) {
    && TargetSet(mapping, snap, MessageEntity) == Elems(state.msgTargets)
    && TargetSet(mapping, snap, ConversationEntity) == Elems(state.convTargets)
  }

  predicate Unchanged(mapping: Mapping, sigs: map<Entity, seq<Refresh.StoreSig>>, snap: Snapshot, e: Entity) {
    e in sigs && sigs[e] == Refresh.EntitySig(snap, Targets(mapping, snap, e))
  }

  /** Every table whose signature did not move already holds what a replacement would write; see `Refresh.SkipIsReplace`. */
  ghost predicate SkippedAreCurrent(mapping: Mapping, sigs: map<Entity, seq<Refresh.StoreSig>>, snap: Snapshot, c: Contents) {
    && (Unchanged(mapping, sigs, snap, ProfileEntity) ==> c.profiles == EntityTable(mapping, snap, ProfileEntity))
    && (Unchanged(mapping, sigs, snap, EventEntity) ==> c.events == EntityTable(mapping, snap, EventEntity))
    && (Unchanged(mapping, sigs, snap, CallEntity) ==> c.calls == EntityTable(mapping, snap, CallEntity))
  }

  datatype Outcome = Applied | Skipped | NeedFull

  /** The ids of a snapshot's conversation records, in order. */
  function ConvIdsOf(mapping: Mapping, snap: Snapshot): seq<string> {
    MetaIds(ConvRows(mapping, Records(snap, Targets(mapping, snap, ConversationEntity))))
  }

  /** Every row that differs between two states of the messages table has its id in `ids`. */
  ghost predicate Touches(ids: set<string>, before: seq<Message>, after: seq<Message>) {
    && (forall m :: m in before && m !in after ==> m.id in ids)
    && (forall m :: m in after && m !in before ==> m.id in ids)
  }

  function KeepFts(fts: seq<FtsRow>, ids: set<string>): seq<FtsRow> {
    if fts == [] then []
    else if fts[|fts| - 1].id in ids then KeepFts(fts[..|fts| - 1], ids)
    else KeepFts(fts[..|fts| - 1], ids) + [fts[|fts| - 1]]
  }

  lemma {:induction false} KeepFtsFacts(fts: seq<FtsRow>, ids: set<string>)
    ensures forall f :: f in KeepFts(fts, ids) <==> f in fts && f.id !in ids
    ensures NoDup(fts) ==> NoDup(KeepFts(fts, ids))
  {
    if fts != [] {
      var n := |fts| - 1;
      KeepFtsFacts(fts[..n], ids);
      assert fts == fts[..n] + [fts[n]];
      var kept := KeepFts(fts[..n], ids);
      if NoDup(fts) {
        assert forall f :: f in kept ==> f in fts[..n];
        assert fts[n] !in fts[..n];
      }
    }
  }

  /** The delta refresh of the index: rows of untouched ids are still right, rows of touched ids are re-derived. */
  lemma DeltaIndex(fts0: seq<FtsRow>, before: set<Message>, after: set<Message>, ids: set<string>, added: seq<FtsRow>)
    requires IsIndex(fts0, before)
    requires forall m :: m in before && m !in after ==> m.id in ids
    requires forall m :: m in after && m !in before ==> m.id in ids
    requires NoDup(added) && Elems(added) == set f | f in Indexed(after) && f.id in ids
    ensures IsIndex(KeepFts(fts0, ids) + added, after)
  {
    KeepFtsFacts(fts0, ids);
    var kept := KeepFts(fts0, ids);
    forall f
      ensures f in Elems(kept + added) <==> f in Indexed(after)
    {
      if f.id !in ids {
        assert f in Indexed(before) <==> f in Indexed(after) by {
          if f in Indexed(before) {
            var m :| m in before && !m.isSystem && m.content != "" && f == FtsRow(m.content, m.convId, m.id);
            assert m in after;
          }
          if f in Indexed(after) {
            var m :| m in after && !m.isSystem && m.content != "" && f == FtsRow(m.content, m.convId, m.id);
            assert m in before;
          }
        }
        assert f in fts0 <==> f in Elems(fts0);
      }
      assert f in added <==> f in Elems(added);
    }
    assert forall i, j :: 0 <= i < |kept| && 0 <= j < |added| ==> kept[i] in kept && added[j] in Elems(added);
  }

  lemma UpsertTouches(before: seq<Message>, m: Message)
    requires UniqueKeys(before)
    ensures Touches({m.id}, before, UpsertRow(before, m))
  {
    var after := UpsertRow(before, m);
    forall x | x in before && x !in after
      ensures x.id == m.id
    {
      var i :| 0 <= i < |before| && before[i] == x;
      assert i < |after| && (after[i] == before[i] || KeyOf(before[i]) == KeyOf(m));
    }
  }

  lemma NothingTouched(rows: seq<Message>)
    ensures Touches({}, rows, rows)
  {
  }

  lemma UpsertStep(start: seq<Message>, before: seq<Message>, m: Message, ids: set<string>)
    requires UniqueKeys(before) && Touches(ids, start, before)
    ensures UniqueKeys(UpsertRow(before, m)) && Touches(ids + {m.id}, start, UpsertRow(before, m))
    ensures forall x :: x in UpsertRow(before, m) ==> x in before || x == m
  {
    UpsertRowUnique(before, m);
    UpsertTouches(before, m);
  }

  lemma LatestExists(rows: set<Message>)
    requires rows != {}
    ensures exists m :: m in rows && forall n :: n in rows ==> !After(n, m.ts, m.id)
    decreases |rows|
  {
    var a :| a in rows;
    var rest := rows - {a};
    assert rows == rest + {a};
    TextOrder();
    if rest != {} {
      LatestExists(rest);
      var b :| b in rest && forall n :: n in rest ==> !After(n, b.ts, b.id);
      var m := if After(a, b.ts, b.id) then a else b;
      forall n | n in rows
        ensures !After(n, m.ts, m.id)
      {
        assert n == a || n in rest;
      }
      assert m in rows;
    } else {
      assert a in rows && forall n :: n in rows ==> !After(n, a.ts, a.id);
    }
  }

  ghost function ChainKeys(recs: seq<Rec>): set<string> {
    set r | r in recs :: ToHex(r.key)
  }

  lemma ScanStep(seen: seq<Rec>, rec: Rec, floor: nat)
    ensures ChainKeys(seen + [rec]) == ChainKeys(seen) + {ToHex(rec.key)}
    ensures Changed(seen + [rec], floor) == Changed(seen, floor) + (if rec.seqNo > floor then [rec] else [])
    ensures ChainKeys(Changed(seen, floor) + [rec]) == ChainKeys(Changed(seen, floor)) + {ToHex(rec.key)}
  {
    TakeAppend(seen, rec);
    ChainKeysAppend(seen, rec);
    ChainKeysAppend(Changed(seen, floor), rec);
  }

  lemma ChainKeysAppend(s: seq<Rec>, rec: Rec)
    ensures ChainKeys(s + [rec]) == ChainKeys(s) + {ToHex(rec.key)}
  {
    assert forall r :: r in s + [rec] <==> r in s || r == rec;
  }

  lemma NothingScanned(floor: nat)
    ensures ChainKeys([]) == {} && Changed([], floor) == []
  {
  }

  /** One pass over the message stores: the live chains, the chains written after the floor, and their records. */
  method ScanChains(snap: Snapshot, targets: seq<string>, floor: nat) returns (live: set<string>, changed: set<string>,
                    recs: seq<Rec>)
    ensures live == ChainKeys(Records(snap, targets))
    ensures recs == Changed(Records(snap, targets), floor) && changed == ChainKeys(recs)
  {
    hide ToHex, Changed, ChainKeys;
    live, changed, recs := {}, {}, [];
    NothingScanned(floor);
    for i := 0 to |targets|
      invariant live == ChainKeys(Records(snap, targets[..i]))
      invariant recs == Changed(Records(snap, targets[..i]), floor) && changed == ChainKeys(recs)
    {
      ghost var before := Records(snap, targets[..i]);
      var bucket := Bucket(snap, targets[i]);
      assert before + bucket[..0] == before;
      for j := 0 to |bucket|
        invariant live == ChainKeys(before + bucket[..j])
        invariant recs == Changed(before + bucket[..j], floor) && changed == ChainKeys(recs)
      {
        var rec := bucket[j];
        var hex := ToHex(rec.key);
        ghost var seen := before + bucket[..j];
        assert before + bucket[..j + 1] == seen + [rec];
        ScanStep(seen, rec, floor);
        live := live + {hex};
        if rec.seqNo > floor {
          changed := changed + {hex};
          recs := recs + [rec];
        }
      }
      assert bucket[..|bucket|] == bucket;
      assert targets[..i + 1][..i] == targets[..i];
    }
    assert targets[..|targets|] == targets;
  }

  /** With one record per chain, "live and not rewritten" is what survives the deletes. */
  lemma SurvivorsAreKept(stored: MessageTable, recs: seq<Rec>, floor: nat, p: Message -> bool)
    requires DistinctKeys(recs)
    requires forall m :: p(m) <==> m.chainKey in ChainKeys(recs) && m.chainKey !in ChainKeys(Changed(recs, floor))
    ensures KeepTable(stored, p) == map k | k in stored && KeptChain(recs, floor, stored[k].chainKey) :: stored[k]
  {
    ChangedElems(recs, floor);
    forall m: Message
      ensures p(m) <==> KeptChain(recs, floor, m.chainKey)
    {
      if KeptChain(recs, floor, m.chainKey) {
        var r :| r in recs && r.seqNo <= floor && ToHex(r.key) == m.chainKey;
        forall c | c in Changed(recs, floor)
          ensures ToHex(c.key) != m.chainKey
        {
          if ToHex(c.key) == m.chainKey {
            KeyOfChain(recs, r, c);
          }
        }
      }
    }
  }

  lemma KeepTableTwice(stored: MessageTable, p: Message -> bool, q: Message -> bool, both: Message -> bool)
    requires forall m :: both(m) <==> p(m) && q(m)
    ensures KeepTable(KeepTable(stored, p), q) == KeepTable(stored, both)
  {
  }

  /** The handles of the stored rows: conversations first, then people. */
  function SeedBook(conversations: map<string, Conversation>, people: map<string, Person>): Book {
    var convs := map id | id in conversations :: conversations[id].handle;
    var persons := map mri | mri in people :: people[mri].handle;
    Book(convs + persons, convs.Values + persons.Values)
  }

  /** Rows carry their ids' handles in `book`, so what is seeded from them agrees with it. */
  lemma SeedAgrees(conversations: map<string, Conversation>, people: map<string, Person>, book: Book)
    requires forall id :: id in conversations ==> id in book.byFull && conversations[id].handle == book.byFull[id]
    requires forall mri :: mri in people ==> mri in book.byFull && people[mri].handle == book.byFull[mri]
    ensures var b := SeedBook(conversations, people).byFull;
      && b.Keys == conversations.Keys + people.Keys
      && forall id :: id in b ==> id in book.byFull && b[id] == book.byFull[id]
  {
  }

  /** Writing one conversation's meta leaves every other row's as it was. */
  lemma MetaWritten(before: map<string, Conversation>, after: map<string, Conversation>, meta: map<string, ConvMeta>, c: ConvMeta)
    requires after.Keys == before.Keys + {c.id} && HasMeta(map[c.id := c], c.id, after[c.id])
    requires forall id :: id in before && id != c.id ==> after[id] == before[id]
    requires forall id :: id in before ==> HasMeta(meta, id, before[id])
    ensures forall id :: id in after ==> HasMeta(meta[c.id := c], id, after[id])
  {
  }

  /** The recompute names only the conversations with a record or a message, and the senders. */
  lemma RefreshNames(mapping: Mapping, snap: Snapshot, convTargets: seq<string>, rows: set<Message>, known: set<string>,
                     sha: Hash, b0: Book)
    ensures StrictTotal(TextLess)
    ensures var b1 := AssignAll(sha, b0, 'c', MetaIds(ConvRows(mapping, Records(snap, convTargets))));
      var b2 := AssignAll(sha, b1, 'c', OrderBy(TextLess, ConvIds(rows) - known));
      KeepsShort(sha, b0, AssignAll(sha, b2, 'p', OrderBy(TextLess, Senders(rows))),
                 ConvMetaOf(mapping, snap, convTargets).Keys + ConvIds(rows), Senders(rows))
  {
    hide KeepsShort, AssignAll, Records, ConvRows, MetaOf, MetaIds, StrictTotal, OrderBy, Lists;
    TextOrder();
    var metas := ConvRows(mapping, Records(snap, convTargets));
    var missing, senders := OrderBy(TextLess, ConvIds(rows) - known), OrderBy(TextLess, Senders(rows));
    var b1 := AssignAll(sha, b0, 'c', MetaIds(metas));
    var b2 := AssignAll(sha, b1, 'c', missing);
    MetaIdsKeys(metas);
    ListsElems(TextLess, missing, ConvIds(rows) - known);
    ListsElems(TextLess, senders, Senders(rows));
    AssignKeepsShort(sha, b0, 'c', MetaIds(metas));
    AssignKeepsShort(sha, b1, 'c', missing);
    AssignKeepsShort(sha, b2, 'p', senders);
    var b3 := AssignAll(sha, b2, 'p', senders);
    var none: set<string> := {};
    var named := Elems(MetaIds(metas)) + Elems(missing);
    KeepsShortTwice(sha, b0, b1, b2, Elems(MetaIds(metas)), none, Elems(missing), none);
    assert none + none == none && named + none == named && none + Elems(senders) == Elems(senders);
    KeepsShortTwice(sha, b0, b2, b3, named, none, none, Elems(senders));
    KeepsShortWider(sha, b0, b3, named, Elems(senders), ConvMetaOf(mapping, snap, convTargets).Keys + ConvIds(rows), Senders(rows));
  }

  /** Seeding from the rows forgets only handles no row has, so short handles stay short. */
  lemma SeedShort(conversations: map<string, Conversation>, people: map<string, Person>, book: Book, sha: Hash,
                  convs: set<string>, persons: set<string>)
    requires ShortIn(sha, convs, persons, book)
    requires forall id :: id in conversations ==> id in book.byFull && conversations[id].handle == book.byFull[id]
    requires forall mri :: mri in people ==> mri in book.byFull && people[mri].handle == book.byFull[mri]
    ensures ShortIn(sha, convs, persons, SeedBook(conversations, people))
  {
    hide NoShortCollision, ShortHandle;
    SeedAgrees(conversations, people, book);
    var b := SeedBook(conversations, people);
    var c := map id | id in conversations :: conversations[id].handle;
    var p := map mri | mri in people :: people[mri].handle;
    forall v
      ensures v in b.used <==> v in b.byFull.Values
    {
      if v in c.Values {
        var id :| id in c && c[id] == v;
        assert b.byFull[id] == v;
      }
      if v in p.Values {
        var id :| id in p && p[id] == v;
        assert b.byFull[id] == v;
      }
      if v in b.byFull.Values {
        var id :| id in b.byFull && b.byFull[id] == v;
        assert id in c ==> c[id] == v;
        assert id in p ==> p[id] == v;
      }
    }
  }

  lemma SeedNamesNobody(conversations: map<string, Conversation>, people: map<string, Person>, book: Book, sha: Hash)
    requires forall id :: id in conversations ==> id in book.byFull && conversations[id].handle == book.byFull[id]
    requires forall mri :: mri in people ==> mri in book.byFull && people[mri].handle == book.byFull[mri]
    ensures NamesOnly(sha, book, SeedBook(conversations, people), Ids({}, {}))
  {
    hide ShortIn, SeedBook;
    forall convs, persons | ShortIn(sha, convs, persons, book)
      ensures ShortIn(sha, convs, persons, SeedBook(conversations, people))
    {
      SeedShort(conversations, people, book, sha, convs, persons);
    }
  }

  lemma PeopleAreNamed(rows: set<Message>, book: map<string, string>, people: map<string, Person>)
    requires IsPeople(rows, book, people)
    ensures forall mri :: mri in people ==> mri in book && people[mri].handle == book[mri]
  {
  }

  class ChatStore {
    const ftsEnabled: bool
    const handles: HandleAllocator
    var messages: seq<Message>
    var conversations: map<string, Conversation>
    var people: map<string, Person>
    var profiles: map<string, Row>
    var events: map<string, Row>
    var calls: map<string, Row>
    var fts: seq<FtsRow>
    var ftsBuilt: bool
    var isOpen: bool

    ghost function View(): Contents
      reads this
    {
      Contents(ByKey(messages), conversations, people, profiles, events, calls, fts)
    }

    /** Keys are unique, and every conversation row has its id's kind and its issued handle. */
    ghost predicate Valid()
      reads this`messages, this`conversations, handles
    {
      && UniqueKeys(messages)
      && (forall m :: m in messages ==> m.kind == ConvKind(m.convId))
      && Issued(handles.State())
      && ConversationsNamed()
    }

    ghost predicate ConversationsNamed()
      reads this`conversations, handles
    {
      forall id :: id in conversations ==>
        && id in handles.handleByFull && conversations[id].handle == handles.handleByFull[id]
        && conversations[id].kind == ConvKind(id)
    }

    /** The index is being kept up to date. */
    predicate IndexLive()
      reads this`ftsBuilt
    {
      ftsEnabled && ftsBuilt
    }

    constructor (sha: Hash, ftsEnabled: bool)
      ensures Valid() && fresh(handles) && handles.State() == EMPTY && handles.sha == sha
      ensures messages == [] && conversations == map[] && people == map[] && profiles == map[] && events == map[] && calls == map[]
      ensures fts == [] && !ftsBuilt && isOpen && this.ftsEnabled == ftsEnabled
    {
      this.ftsEnabled := ftsEnabled;
      handles := new HandleAllocator(sha);
      messages := [];
      conversations, people, profiles, events, calls := map[], map[], map[], map[], map[];
      fts, ftsBuilt, isOpen := [], false, true;
    }

    /** Every person row has its id's issued handle. */
    ghost predicate PeopleNamed()
      reads this`people, handles
    {
      forall mri :: mri in people ==> mri in handles.handleByFull && people[mri].handle == handles.handleByFull[mri]
    }

    /** The next file of an engine that never changes a served one: the same rows, indexed alike, with an allocator seeded
        from the handles of the stored rows alone. */
    constructor Copy(s: ChatStore)
      requires s.Valid() && s.PeopleNamed()
      ensures Valid() && PeopleNamed() && fresh(handles) && handles.sha == s.handles.sha
      ensures handles.State() == SeedBook(s.conversations, s.people)
      ensures Seeded(s.handles.handleByFull, handles.handleByFull, View())
      ensures NamesOnly(handles.sha, s.handles.State(), handles.State(), Ids({}, {}))
      ensures View() == s.View() && messages == s.messages && ftsEnabled == s.ftsEnabled && ftsBuilt == s.ftsBuilt && isOpen
    {
      hide ByKey, UniqueKeys, ConvKind;
      ftsEnabled := s.ftsEnabled;
      SeedAgrees(s.conversations, s.people, s.handles.State());
      SeedNamesNobody(s.conversations, s.people, s.handles.State(), s.handles.sha);
      hide NamesOnly;
      var h := new HandleAllocator(s.handles.sha);
      var seeded := SeedBook(s.conversations, s.people);
      hide SeedBook;
      h.handleByFull, h.usedHandles := seeded.byFull, seeded.used;
      handles := h;
      messages := s.messages;
      conversations, people, profiles, events, calls := s.conversations, s.people, s.profiles, s.events, s.calls;
      fts, ftsBuilt, isOpen := s.fts, s.ftsBuilt, true;
    }

    method Close()
      modifies this`isOpen
      ensures !isOpen
    {
      isOpen := false;
    }

    // ---- row writes ----

    /** A new conversation takes its handle; a known one keeps it and has its meta columns overwritten. */
    method UpsertConversationMeta(c: ConvMeta)
      requires Valid()
      modifies this`conversations, handles
      ensures Valid()
      ensures conversations.Keys == old(conversations.Keys) + {c.id}
      ensures HasMeta(map[c.id := c], c.id, conversations[c.id])
      ensures handles.State() == Assign(handles.sha, old(handles.State()), 'c', c.id)
      ensures forall id :: id in old(conversations) && id != c.id ==> conversations[id] == old(conversations[id])
    {
      AssignKeeps(handles.sha, handles.State(), 'c', c.id);
      var h := handles.HandleFor('c', c.id);
      if c.id in conversations {
        conversations := conversations[c.id := conversations[c.id].(
          kind := ConvKind(c.id), topic := c.topic, teamId := c.teamId, threadType := c.threadType, metaLastTs := c.metaLastTs)];
      } else {
        conversations := conversations[c.id := Conversation(
          h, ConvKind(c.id), c.topic, c.teamId, c.threadType, c.metaLastTs, 0, None, 0, 0, 0)];
      }
    }

    /** After resetting the meta columns, the rows leave each conversation with its last record's meta. */
    method ApplyConversationMeta(rows: seq<ConvMeta>)
      requires Valid() && forall id :: id in conversations ==> HasMeta(map[], id, conversations[id])
      modifies this`conversations, handles
      ensures Valid()
      ensures conversations.Keys == old(conversations.Keys) + MetaOf(rows).Keys
      ensures forall id :: id in conversations ==> HasMeta(MetaOf(rows), id, conversations[id])
      ensures handles.State() == AssignAll(handles.sha, old(handles.State()), 'c', MetaIds(rows))
    {
      hide AssignAll, Assign, MetaIds, MetaOf, HasMeta;
      StartAssign(handles.sha, handles.State(), 'c');
      assert MetaOf(rows[..0]) == map[] && MetaIds(rows[..0]) == [] by {
        StartMeta(rows);
      }
      for i := 0 to |rows|
        invariant handles.State() == AssignAll(handles.sha, old(handles.State()), 'c', MetaIds(rows[..i]))
        invariant Valid()
        invariant conversations.Keys == old(conversations.Keys) + MetaOf(rows[..i]).Keys
        invariant forall id :: id in conversations ==> HasMeta(MetaOf(rows[..i]), id, conversations[id])
      {
        MetaStep(rows, i);
        if rows[i].id != "" {
          AssignAllStep(handles.sha, old(handles.State()), 'c', MetaIds(rows[..i]), rows[i].id);
          ghost var before := conversations;
          UpsertConversationMeta(rows[i]);
          MetaWritten(before, conversations, MetaOf(rows[..i]), rows[i]);
        }
      }
      assert rows[..|rows|] == rows;
    }

    method DeleteMessagesForMissingChains(live: set<string>) returns (ids: set<string>)
      requires Valid()
      modifies this`messages
      ensures Valid() && Touches(ids, old(messages), messages)
      ensures ByKey(messages) == KeepTable(old(ByKey(messages)), (m: Message) => m.chainKey in live)
    {
      ids := set m | m in messages && m.chainKey !in live :: m.id;
      var p := (m: Message) => m.chainKey in live;
      KeepByKey(messages, p);
      KeepElems(messages, p);
      messages := Keep(messages, p);
    }

    method DeleteMessagesByChain(chainKey: string) returns (ids: set<string>)
      requires Valid()
      modifies this`messages
      ensures Valid() && Touches(ids, old(messages), messages)
      ensures ByKey(messages) == KeepTable(old(ByKey(messages)), (m: Message) => m.chainKey != chainKey)
    {
      ids := set m | m in messages && m.chainKey == chainKey :: m.id;
      var p := (m: Message) => m.chainKey != chainKey;
      KeepByKey(messages, p);
      KeepElems(messages, p);
      messages := Keep(messages, p);
    }

    /** Upsert shaped rows one by one; returns the ids it wrote. */
    method ApplyMessages(rows: seq<Message>) returns (changed: set<string>)
      requires Valid() && forall m :: m in rows ==> m.kind == ConvKind(m.convId)
      modifies this`messages
      ensures Valid() && Touches(changed, old(messages), messages)
      ensures messages == UpsertRows(old(messages), rows)
    {
      hide UniqueKeys, UpsertRow, Touches, ConversationsNamed, Issued, ConvKind;
      changed := {};
      NothingTouched(messages);
      for i := 0 to |rows|
        invariant Valid() && Touches(changed, old(messages), messages)
        invariant messages == UpsertRows(old(messages), rows[..i])
      {
        assert rows[..i + 1][..i] == rows[..i];
        UpsertStep(old(messages), messages, rows[i], changed);
        messages := UpsertRow(messages, rows[i]);
        changed := changed + {rows[i].id};
      }
      assert rows[..|rows|] == rows;
    }

    method ReplaceRows(e: Entity, rows: seq<Row>)
      requires e == ProfileEntity || e == EventEntity || e == CallEntity
      modifies this`profiles, this`events, this`calls
      ensures profiles == if e == ProfileEntity then RowTable(e, rows) else old(profiles)
      ensures events == if e == EventEntity then RowTable(e, rows) else old(events)
      ensures calls == if e == CallEntity then RowTable(e, rows) else old(calls)
    {
      var table: map<string, Row> := map[];
      for i := 0 to |rows|
        invariant table == RowTable(e, rows[..i])
      {
        assert rows[..i + 1][..i] == rows[..i];
        if Storable(e, rows[i]) {
          table := table[rows[i].id := rows[i]];
        }
      }
      assert rows[..|rows|] == rows;
      match e
      case ProfileEntity => profiles := table;
      case EventEntity => events := table;
      case CallEntity => calls := table;
      case MessageEntity =>
      case ConversationEntity =>
    }

    // ---- derived tables ----

    /** `insert into conversations(id,handle,kind)` of a conversation without a record; its kind is the least of its messages'. */
    method InsertMissingConversation(id: string, ghost meta: map<string, ConvMeta>)
      requires Valid() && id in ConvIds(Elems(messages)) && id !in conversations && id !in meta
      modifies this`conversations, handles
      ensures Valid()
      ensures conversations.Keys == old(conversations.Keys) + {id}
      ensures HasMeta(meta, id, conversations[id])
      ensures forall x :: x in old(conversations) ==> conversations[x] == old(conversations[x])
      ensures handles.State() == Assign(handles.sha, old(handles.State()), 'c', id)
    {
      var group := set m | m in messages && m.convId == id :: m.kind;
      assert ConvKind(id) in group && forall k :: k in group ==> k == ConvKind(id);
      var kind :| kind in group && forall k | k in group :: k == kind || TextLess(kind, k);  // min(kind)
      AssignKeeps(handles.sha, handles.State(), 'c', id);
      var h := handles.HandleFor('c', id);
      conversations := conversations[id := Conversation(h, kind, None, None, None, 0, 0, None, 0, 0, 0)];
    }

    method InsertConversations(missing: seq<string>, ghost meta: map<string, ConvMeta>)
      requires Valid() && NoDup(missing) && Elems(missing) <= ConvIds(Elems(messages)) && Elems(missing) !! conversations.Keys
      requires meta.Keys <= conversations.Keys && forall id :: id in conversations ==> HasMeta(meta, id, conversations[id])
      modifies this`conversations, handles
      ensures Valid()
      ensures conversations.Keys == old(conversations.Keys) + Elems(missing)
      ensures forall id :: id in conversations ==> HasMeta(meta, id, conversations[id])
      ensures handles.State() == AssignAll(handles.sha, old(handles.State()), 'c', missing)
    {
      hide AssignAll, Assign, HasMeta, Valid, NoDup, Elems, ConvIds;
      StartAssign(handles.sha, handles.State(), 'c');
      ElemsAll(missing);
      for i := 0 to |missing|
        invariant Valid()
        invariant conversations.Keys == old(conversations.Keys) + Elems(missing[..i])
        invariant forall id :: id in conversations ==> HasMeta(meta, id, conversations[id])
        invariant handles.State() == AssignAll(handles.sha, old(handles.State()), 'c', missing[..i])
      {
        ElemsStep(missing, i);
        assert missing[..i + 1] == missing[..i] + [missing[i]];
        AssignAllStep(handles.sha, old(handles.State()), 'c', missing[..i], missing[i]);
        InsertMissingConversation(missing[i], meta);
      }
      assert missing[..|missing|] == missing;
    }

    /** Conversations known only from messages, in id order. */
    method InsertMissingConversations(ghost meta: map<string, ConvMeta>)
      requires Valid() && forall id :: id in conversations ==> HasMeta(meta, id, conversations[id])
      requires meta.Keys <= conversations.Keys
      modifies this`conversations, handles
      ensures Valid()
      ensures conversations.Keys == old(conversations.Keys) + ConvIds(Elems(messages))
      ensures forall id :: id in conversations ==> HasMeta(meta, id, conversations[id])
      ensures StrictTotal(TextLess)
      ensures handles.State() == AssignAll(handles.sha, old(handles.State()), 'c',
        OrderBy(TextLess, ConvIds(Elems(messages)) - old(conversations.Keys)))
    {
      hide AssignAll, HasMeta, Valid, NoDup, ConvIds;
      TextOrder();
      var ids := ConvIds(Elems(messages)) - conversations.Keys;
      var missing := OrderBy(TextLess, ids);
      ListsNoDup(TextLess, missing, ids);
      ListsElems(TextLess, missing, ids);
      InsertConversations(missing, meta);
    }

    /** `insert into people` of one sender: counted, dated, and named by a most recent message. */
    method InsertPerson(mri: string)
      requires Valid() && mri in Senders(Elems(messages))
      modifies this`people, handles
      ensures Valid()
      ensures people.Keys == old(people.Keys) + {mri}
      ensures IsPerson(Elems(messages), handles.handleByFull, mri, people[mri])
      ensures forall x :: x in old(people) && x != mri ==> people[x] == old(people[x])
      ensures handles.State() == Assign(handles.sha, old(handles.State()), 'p', mri)
      ensures Grows(old(handles.handleByFull), handles.handleByFull)
    {
      var mine := From(Elems(messages), mri);
      assert mine != {} by {
        var m :| m in Elems(messages) && !m.isSystem && m.senderMri == mri;
        assert m in mine;
      }
      LatestExists(mine);
      var latest :| latest in mine && forall n | n in mine :: !After(n, latest.ts, latest.id);
      AssignKeeps(handles.sha, handles.State(), 'p', mri);
      var h := handles.HandleFor('p', mri);
      people := people[mri := Person(h, latest.senderName, |mine|, MaxTs(mine))];
    }

    method InsertPeople(senders: seq<string>)
      requires Valid() && Elems(senders) <= Senders(Elems(messages)) && NoDup(senders) && people == map[]
      modifies this`people, handles
      ensures Valid() && people.Keys == Elems(senders)
      ensures forall mri :: mri in people ==> IsPerson(Elems(messages), handles.handleByFull, mri, people[mri])
      ensures handles.State() == AssignAll(handles.sha, old(handles.State()), 'p', senders)
    {
      hide IsPerson, Valid, AssignAll, Assign, Senders, NoDup, Elems;
      StartAssign(handles.sha, handles.State(), 'p');
      ElemsAll(senders);
      for i := 0 to |senders|
        invariant Valid()
        invariant people.Keys == Elems(senders[..i])
        invariant handles.State() == AssignAll(handles.sha, old(handles.State()), 'p', senders[..i])
        invariant forall mri :: mri in people ==> IsPerson(Elems(messages), handles.handleByFull, mri, people[mri])
      {
        ElemsStep(senders, i);
        assert senders[..i + 1] == senders[..i] + [senders[i]];
        AssignAllStep(handles.sha, old(handles.State()), 'p', senders[..i], senders[i]);
        ghost var book, earlier := handles.handleByFull, people;
        InsertPerson(senders[i]);
        forall mri | mri in earlier && mri != senders[i]
          ensures IsPerson(Elems(messages), handles.handleByFull, mri, people[mri])
        {
          PersonStays(Elems(messages), book, handles.handleByFull, mri, people[mri]);
        }
      }
      assert senders[..|senders|] == senders;
    }

    /** One person per non-system sender, in id order. */
    method RebuildPeople()
      requires Valid()
      modifies this`people, handles
      ensures Valid() && IsPeople(Elems(messages), handles.handleByFull, people)
      ensures StrictTotal(TextLess)
      ensures handles.State() == AssignAll(handles.sha, old(handles.State()), 'p', OrderBy(TextLess, Senders(Elems(messages))))
    {
      hide IsPerson, Valid, AssignAll, NoDup, Senders;
      TextOrder();
      people := map[];
      var ids := Senders(Elems(messages));
      var senders := OrderBy(TextLess, ids);
      ListsElems(TextLess, senders, ids);
      ListsNoDup(TextLess, senders, ids);
      InsertPeople(senders);
    }

    /** The one recompute both paths share: people first, since their names feed the participant lists. */
    method RecomputeDerived(self: Option<string>, ghost meta: map<string, ConvMeta>)
      requires Valid() && forall id :: id in conversations ==> HasMeta(meta, id, conversations[id])
      requires meta.Keys <= conversations.Keys <= meta.Keys + ConvIds(Elems(messages))
      modifies this`conversations, this`people, handles
      ensures Valid()
      ensures IsPeople(Elems(messages), handles.handleByFull, people)
      ensures IsConversations(Elems(messages), meta, handles.handleByFull, SelfText(self), people, conversations)
      ensures StrictTotal(TextLess)
      ensures handles.State() == AssignAll(handles.sha,
        AssignAll(handles.sha, old(handles.State()), 'c', OrderBy(TextLess, ConvIds(Elems(messages)) - old(conversations.Keys))),
        'p', OrderBy(TextLess, Senders(Elems(messages))))
    {
      hide AssignAll, Assign, Lists, StrictTotal, IsPeople, HasMeta, IsConversation;
      InsertMissingConversations(meta);
      RebuildPeople();
      UpdateAggregates(self, meta);
    }

    /** The three `update conversations` statements. */
    method UpdateAggregates(self: Option<string>, ghost meta: map<string, ConvMeta>)
      requires Valid() && forall id :: id in conversations ==> HasMeta(meta, id, conversations[id])
      modifies this`conversations
      ensures Valid() && conversations.Keys == old(conversations.Keys)
      ensures forall id :: id in conversations ==>
        IsConversation(Elems(messages), meta, handles.handleByFull, SelfText(self), people, id, conversations[id])
    {
      var rows := Elems(messages);
      var names := NamesOfPeople(people);
      var derived := map id | id in conversations :: conversations[id].(
        msgCount := |In(rows, id)|,
        participantCount := |Senders(In(rows, id))|,
        activityTs := Activity(rows, id),
        lastTs := Max(conversations[id].metaLastTs, Activity(rows, id)),
        participantNames := ParticipantNames(rows, id, SelfText(self), names));
      forall id | id in derived
        ensures IsConversation(rows, meta, handles.handleByFull, SelfText(self), people, id, derived[id])
      {
        assert HasMeta(meta, id, conversations[id]);
      }
      conversations := derived;
    }

    // ---- search index ----

    method ListRows(rows: set<FtsRow>) returns (list: seq<FtsRow>)
      ensures NoDup(list) && Elems(list) == rows
    {
      list := [];
      var rest := rows;
      while rest != {}
        invariant rest <= rows && NoDup(list) && Elems(list) == rows - rest
        decreases |rest|
      {
        var f :| f in rest;
        assert f !in Elems(list);
        ElemsAppend(list, [f]);
        list := list + [f];
        rest := rest - {f};
      }
    }

    /** Rebuild the whole index, or only the rows of the given message ids. */
    method RefreshFts(changed: Option<set<string>>, ghost before: seq<Message>)
      modifies this`fts, this`ftsBuilt
      ensures ftsEnabled && changed.None? ==> ftsBuilt && IsIndex(fts, Elems(messages))
      ensures changed.Some? ==> ftsBuilt == old(ftsBuilt)
      ensures changed.Some? && ftsEnabled && IsIndex(old(fts), Elems(before)) && Touches(changed.value, before, messages) ==>
        IsIndex(fts, Elems(messages))
      ensures !ftsEnabled ==> fts == old(fts) && ftsBuilt == old(ftsBuilt)
    {
      if !ftsEnabled {
        return;
      }
      var rows := Elems(messages);
      if changed.None? {
        fts := ListRows(Indexed(rows));
        ftsBuilt := true;
        return;
      }
      var ids := changed.value;
      if ids == {} {
        assert Touches(ids, before, messages) ==> Elems(before) == rows;
        return;
      }
      var added := ListRows(set f | f in Indexed(rows) && f.id in ids);
      if IsIndex(fts, Elems(before)) && Touches(ids, before, messages) {
        DeltaIndex(fts, Elems(before), rows, ids, added);
      }
      fts := KeepFts(fts, ids) + added;
    }

    // ---- the incremental apply ----

    method DeleteChangedChains(changed: set<string>) returns (ids: set<string>)
      requires Valid()
      modifies this`messages
      ensures Valid() && Touches(ids, old(messages), messages)
      ensures ByKey(messages) == KeepTable(old(ByKey(messages)), (m: Message) => m.chainKey !in changed)
    {
      ghost var stored := ByKey(messages);
      ids := {};
      var todo := changed;
      while todo != {}
        invariant todo <= changed && Valid() && Touches(ids, old(messages), messages)
        invariant ByKey(messages) == KeepTable(stored, (m: Message) => m.chainKey !in changed - todo)
        decreases |todo|
      {
        var ck :| ck in todo;
        ghost var before := (m: Message) => m.chainKey !in changed - todo;
        var deleted := DeleteMessagesByChain(ck);
        ids := ids + deleted;
        todo := todo - {ck};
        KeepTableTwice(stored, before, (m: Message) => m.chainKey != ck, (m: Message) => m.chainKey !in changed - todo);
      }
    }

    /** Remove every chain that vanished or was rewritten, then upsert the rows of the rewritten ones. */
    method ApplyMessageDelta(mapping: Mapping, self: Option<string>, snap: Snapshot, targets: seq<string>, floor: nat)
      returns (ftsIds: set<string>)
      requires Valid() && DistinctKeys(Records(snap, targets))
      modifies this`messages
      ensures Valid() && Touches(ftsIds, old(messages), messages)
      ensures ByKey(messages) == DeltaMessages(mapping, self, old(ByKey(messages)), floor, Records(snap, targets))
    {
      ghost var stored := ByKey(messages);
      var live, changed, recs := ScanChains(snap, targets, floor);
      ftsIds := DeleteMessagesForMissingChains(live);
      var p := (m: Message) => m.chainKey in live;
      var ids := DeleteChangedChains(changed);
      ftsIds := ftsIds + ids;
      var kept := (m: Message) => m.chainKey in live && m.chainKey !in changed;
      KeepTableTwice(stored, p, (m: Message) => m.chainKey !in changed, kept);
      SurvivorsAreKept(stored, Records(snap, targets), floor, kept);
      MessageRowsFacts(mapping, self, recs);
      UpsertRowsByKey(messages, MessageRows(mapping, self, recs));
      var written := ApplyMessages(MessageRows(mapping, self, recs));
      ftsIds := ftsIds + written;
    }

    /** Reset the meta columns, re-apply the live conversation records, drop conversations with neither record nor message. */
    method ReconcileConversations(mapping: Mapping, snap: Snapshot, convTargets: seq<string>)
      requires Valid()
      modifies this`conversations, handles
      ensures Valid()
      ensures var meta := ConvMetaOf(mapping, snap, convTargets);
        && meta.Keys <= conversations.Keys <= meta.Keys + ConvIds(Elems(messages))
        && forall id :: id in conversations ==> HasMeta(meta, id, conversations[id])
      ensures handles.State() == AssignAll(handles.sha, old(handles.State()), 'c', MetaIds(ConvRows(mapping, Records(snap, convTargets))))
    {
      var convRows := ConvRows(mapping, Records(snap, convTargets));
      conversations := map id | id in conversations :: conversations[id].(topic := None, teamId := None, threadType := None,
                                                                          metaLastTs := 0);
      ApplyConversationMeta(convRows);
      var liveConv, used := MetaOf(convRows).Keys, ConvIds(Elems(messages));
      conversations := map id | id in conversations && (id in liveConv || id in used) :: conversations[id];
    }

    /** Bring the store up to `snap`: skip a lossy load, demand a rebuild when the mapped stores moved, do nothing
        when no sequence number was used since, otherwise apply the delta. */
    method ApplyIncremental(mapping: Mapping, state: IngestState, snap: Snapshot) returns (outcome: Outcome)
      requires Valid() && (!snap.lossy ==> DistinctKeys(Records(snap, state.msgTargets)))
      modifies this, handles
      ensures Valid() && isOpen == old(isOpen) && ftsBuilt == old(ftsBuilt)
      ensures old(PeopleNamed()) ==> PeopleNamed()
      ensures outcome == Skipped <==> snap.lossy
      ensures outcome == NeedFull <==> !snap.lossy && !SameTargets(mapping, state, snap)
      ensures outcome != Applied || snap.maxSeq == state.maxSeq ==> View() == old(View()) && handles.State() == old(handles.State())
      ensures outcome == Applied && snap.maxSeq != state.maxSeq ==>
        IsIncrement(mapping, state, snap, old(View().messages), handles.handleByFull, false, View())
      ensures outcome == Applied && snap.maxSeq != state.maxSeq ==>
        NamesOnly(handles.sha, old(handles.State()), handles.State(), IdsOf(View()))
      ensures outcome == Applied && snap.maxSeq != state.maxSeq && IndexLive() && IsIndex(old(fts), old(Elems(messages))) ==>
        IsIndex(fts, Elems(messages))
    {
      if snap.lossy {
        return Skipped;
      }
      if !SameTargets(mapping, state, snap) {
        return NeedFull;
      }
      if snap.maxSeq == state.maxSeq {
        return Applied;
      }
      ApplyDelta(mapping, state, snap);
      outcome := Applied;
    }

    /** Profiles, events and calls are replaced whole. */
    method ReplaceStores(mapping: Mapping, snap: Snapshot)
      modifies this`profiles, this`events, this`calls
      ensures profiles == EntityTable(mapping, snap, ProfileEntity)
      ensures events == EntityTable(mapping, snap, EventEntity)
      ensures calls == EntityTable(mapping, snap, CallEntity)
    {
      ReplaceRows(ProfileEntity, EntityRows(mapping, ProfileEntity, Records(snap, Targets(mapping, snap, ProfileEntity))));
      ReplaceRows(EventEntity, EntityRows(mapping, EventEntity, Records(snap, Targets(mapping, snap, EventEntity))));
      ReplaceRows(CallEntity, EntityRows(mapping, CallEntity, Records(snap, Targets(mapping, snap, CallEntity))));
    }

    /** Reconcile the conversations, then recompute everything derived. */
    method RefreshDerived(mapping: Mapping, self: Option<string>, snap: Snapshot, convTargets: seq<string>)
      requires Valid()
      modifies this`conversations, this`people, handles
      ensures Valid() && PeopleNamed()
      ensures IsPeople(Elems(messages), handles.handleByFull, people)
      ensures IsConversations(Elems(messages), ConvMetaOf(mapping, snap, convTargets), handles.handleByFull, SelfText(self),
                              people, conversations)
      ensures NamesOnly(handles.sha, old(handles.State()), handles.State(), IdsOf(View()))
    {
      hide IsPeople, IsConversations, ConvMetaOf, Records, KeepsShort, AssignAll, HasMeta, Lists, NoDup;
      ghost var b0 := handles.State();
      ReconcileConversations(mapping, snap, convTargets);
      ghost var b1, known := handles.State(), conversations.Keys;
      RecomputeDerived(self, ConvMetaOf(mapping, snap, convTargets));
      PeopleAreNamed(Elems(messages), handles.handleByFull, people);
      DerivedKeys(Elems(messages), ConvMetaOf(mapping, snap, convTargets), handles.handleByFull, SelfText(self), people, conversations);
      RefreshNames(mapping, snap, convTargets, Elems(messages), known, handles.sha, b0);
    }

    /** Everything but the messages: whole-store tables, conversations, people. */
    method RefreshTables(mapping: Mapping, self: Option<string>, snap: Snapshot, convTargets: seq<string>)
      requires Valid()
      modifies this`conversations, this`people, this`profiles, this`events, this`calls, handles
      ensures Valid() && PeopleNamed()
      ensures Follows(mapping, self, snap, convTargets, handles.handleByFull, false, View())
      ensures NamesOnly(handles.sha, old(handles.State()), handles.State(), IdsOf(View()))
    {
      ReplaceStores(mapping, snap);
      RefreshDerived(mapping, self, snap, convTargets);
      ByKeyFacts(messages);
      FollowsFromParts(mapping, self, snap, convTargets, handles.handleByFull, false, Elems(messages), View());
    }

    method ApplyDelta(mapping: Mapping, state: IngestState, snap: Snapshot)
      requires Valid() && DistinctKeys(Records(snap, state.msgTargets))
      modifies this, handles
      ensures Valid() && PeopleNamed() && isOpen == old(isOpen) && ftsBuilt == old(ftsBuilt)
      ensures IsIncrement(mapping, state, snap, old(View().messages), handles.handleByFull, false, View())
      ensures NamesOnly(handles.sha, old(handles.State()), handles.State(), IdsOf(View()))
      ensures IndexLive() && IsIndex(old(fts), old(Elems(messages))) ==> IsIndex(fts, Elems(messages))
    {
      hide NamesOnly, IsPeople, IsConversations, IsIndex, MetaOf, EntityTable, DeltaMessages, Records, Touches;
      var ftsIds := ApplyMessageDelta(mapping, state.selfMri, snap, state.msgTargets, state.maxSeq);
      RefreshTables(mapping, state.selfMri, snap, state.convTargets);
      ghost var c := View();
      RefreshFts(Some(ftsIds), old(messages));
      assert View() == c.(fts := fts);
    }

    /** Replace only the whole-store tables whose stores' signature moved; returns how many were left alone. */
    method ReplaceChangedStores(mapping: Mapping, sigs: map<Entity, seq<Refresh.StoreSig>>, snap: Snapshot) returns (skipped: nat)
      modifies this`profiles, this`events, this`calls
      ensures profiles == if Unchanged(mapping, sigs, snap, ProfileEntity) then old(profiles) else EntityTable(mapping, snap, ProfileEntity)
      ensures events == if Unchanged(mapping, sigs, snap, EventEntity) then old(events) else EntityTable(mapping, snap, EventEntity)
      ensures calls == if Unchanged(mapping, sigs, snap, CallEntity) then old(calls) else EntityTable(mapping, snap, CallEntity)
      ensures skipped == (if Unchanged(mapping, sigs, snap, ProfileEntity) then 1 else 0)
        + (if Unchanged(mapping, sigs, snap, EventEntity) then 1 else 0) + (if Unchanged(mapping, sigs, snap, CallEntity) then 1 else 0)
    {
      hide Unchanged, Targets, Records, EntityRows, RowTable;
      var p := ReplaceIfChanged(mapping, sigs, snap, ProfileEntity);
      var e := ReplaceIfChanged(mapping, sigs, snap, EventEntity);
      var c := ReplaceIfChanged(mapping, sigs, snap, CallEntity);
      skipped := p + e + c;
    }

    method ReplaceIfChanged(mapping: Mapping, sigs: map<Entity, seq<Refresh.StoreSig>>, snap: Snapshot,
                            e: Entity) returns (skipped: nat)
      requires e == ProfileEntity || e == EventEntity || e == CallEntity
      modifies this`profiles, this`events, this`calls
      ensures skipped == if Unchanged(mapping, sigs, snap, e) then 1 else 0
      ensures profiles == if e == ProfileEntity && skipped == 0 then EntityTable(mapping, snap, e) else old(profiles)
      ensures events == if e == EventEntity && skipped == 0 then EntityTable(mapping, snap, e) else old(events)
      ensures calls == if e == CallEntity && skipped == 0 then EntityTable(mapping, snap, e) else old(calls)
    {
      if Unchanged(mapping, sigs, snap, e) {
        return 1;
      }
      ReplaceRows(e, EntityRows(mapping, e, Records(snap, Targets(mapping, snap, e))));
      skipped := 0;
    }

    /** The native delta: as `ApplyIncremental`, but whole-store tables with an unmoved signature are left alone. */
    method RefreshStore(mapping: Mapping, state: IngestState, sigs: map<Entity, seq<Refresh.StoreSig>>, snap: Snapshot)
      returns (outcome: Outcome, skipped: nat)
      requires Valid() && (!snap.lossy ==> DistinctKeys(Records(snap, state.msgTargets)))
      modifies this, handles
      ensures Valid()
      ensures outcome == Skipped <==> snap.lossy
      ensures outcome == NeedFull <==> !snap.lossy && !SameTargets(mapping, state, snap)
      ensures outcome != Applied || snap.maxSeq == state.maxSeq ==> View() == old(View()) && skipped == 0
      ensures old(PeopleNamed()) ==> PeopleNamed()
      ensures outcome != Applied || snap.maxSeq == state.maxSeq ==> handles.State() == old(handles.State())
      ensures isOpen == old(isOpen) && ftsBuilt == old(ftsBuilt)
      ensures outcome == Applied && snap.maxSeq != state.maxSeq && SkippedAreCurrent(mapping, sigs, snap, old(View())) ==>
        IsIncrement(mapping, state, snap, old(View().messages), handles.handleByFull, false, View())
      ensures outcome == Applied && snap.maxSeq != state.maxSeq ==>
        NamesOnly(handles.sha, old(handles.State()), handles.State(), IdsOf(View()))
      ensures outcome == Applied && snap.maxSeq != state.maxSeq && IndexLive() && IsIndex(old(fts), old(Elems(messages))) ==>
        IsIndex(fts, Elems(messages))
    {
      if snap.lossy {
        return Skipped, 0;
      }
      if !SameTargets(mapping, state, snap) {
        return NeedFull, 0;
      }
      if snap.maxSeq == state.maxSeq {
        return Applied, 0;
      }
      skipped := RefreshDelta(mapping, state, sigs, snap);
      outcome := Applied;
    }

    /** Everything but the messages, with unmoved whole-store tables left alone. */
    method RefreshChangedTables(mapping: Mapping, self: Option<string>, sigs: map<Entity, seq<Refresh.StoreSig>>,
                                snap: Snapshot, convTargets: seq<string>)
      returns (skipped: nat)
      requires Valid()
      modifies this`conversations, this`people, this`profiles, this`events, this`calls, handles
      ensures Valid() && PeopleNamed()
      ensures NamesOnly(handles.sha, old(handles.State()), handles.State(), IdsOf(View()))
      ensures SkippedAreCurrent(mapping, sigs, snap, old(View())) ==>
        Follows(mapping, self, snap, convTargets, handles.handleByFull, false, View())
    {
      hide NamesOnly, IsPeople, IsConversations, EntityTable, Unchanged;
      skipped := ReplaceChangedStores(mapping, sigs, snap);
      RefreshDerived(mapping, self, snap, convTargets);
      ByKeyFacts(messages);
      if SkippedAreCurrent(mapping, sigs, snap, old(View())) {
        FollowsFromParts(mapping, self, snap, convTargets, handles.handleByFull, false, Elems(messages), View());
      }
    }

    method RefreshDelta(mapping: Mapping, state: IngestState, sigs: map<Entity, seq<Refresh.StoreSig>>,
                        snap: Snapshot) returns (skipped: nat)
      requires Valid() && DistinctKeys(Records(snap, state.msgTargets))
      modifies this, handles
      ensures Valid() && PeopleNamed() && isOpen == old(isOpen) && ftsBuilt == old(ftsBuilt)
      ensures NamesOnly(handles.sha, old(handles.State()), handles.State(), IdsOf(View()))
      ensures SkippedAreCurrent(mapping, sigs, snap, old(View())) ==>
        IsIncrement(mapping, state, snap, old(View().messages), handles.handleByFull, false, View())
      ensures IndexLive() && IsIndex(old(fts), old(Elems(messages))) ==> IsIndex(fts, Elems(messages))
    {
      hide NamesOnly, IsPeople, IsConversations, IsIndex, MetaOf, EntityTable, DeltaMessages, Records, Touches, Unchanged;
      var ftsIds := ApplyMessageDelta(mapping, state.selfMri, snap, state.msgTargets, state.maxSeq);
      skipped := RefreshChangedTables(mapping, state.selfMri, sigs, snap, state.convTargets);
      ghost var c := View();
      RefreshFts(Some(ftsIds), old(messages));
      assert View() == c.(fts := fts);
    }

    /** Insert the folded rows of a full extract into an empty table. */
    method LoadMessages(mapping: Mapping, self: Option<string>, recs: seq<Rec>)
      requires Valid() && messages == []
      modifies this`messages
      ensures Valid() && ByKey(messages) == FullMessages(mapping, self, recs)
    {
      var rows := MessageRows(mapping, self, recs);
      messages := BuildMessages(rows);
      UpsertRowsByKey([], rows);
      ByKeyFacts(messages);
      MessageRowsFacts(mapping, self, recs);
      UpsertAllKeys(map[], rows);
      forall m | m in messages
        ensures m.kind == ConvKind(m.convId)
      {
        assert ByKey(messages)[KeyOf(m)] == m;
      }
    }

    /** The base tables of a full extract, loaded into an empty store. */
    method LoadBase(mapping: Mapping, self: Option<string>, snap: Snapshot)
      requires Valid() && messages == [] && conversations == map[]
      modifies this`messages, this`conversations, this`profiles, this`events, this`calls, handles
      ensures Valid() && ByKey(messages) == FullMessages(mapping, self, MessageRecords(mapping, snap))
      ensures handles.State() == AssignAll(handles.sha, old(handles.State()), 'c', ConvIdsOf(mapping, snap))
      ensures var meta := ConvMetaOf(mapping, snap, Targets(mapping, snap, ConversationEntity));
        && conversations.Keys == meta.Keys
        && forall id :: id in conversations ==> HasMeta(meta, id, conversations[id])
      ensures profiles == EntityTable(mapping, snap, ProfileEntity)
      ensures events == EntityTable(mapping, snap, EventEntity)
      ensures calls == EntityTable(mapping, snap, CallEntity)
    {
      hide EntityTable, MetaOf, FullMessages, Targets, Records;
      var convTargets := Targets(mapping, snap, ConversationEntity);
      ApplyConversationMeta(ConvRows(mapping, Records(snap, convTargets)));
      LoadMessages(mapping, self, MessageRecords(mapping, snap));
      ReplaceStores(mapping, snap);
    }

    /** All tables of a full build but the index. */
    method LoadTables(mapping: Mapping, self: Option<string>, snap: Snapshot)
      requires Valid() && messages == [] && conversations == map[]
      modifies this`messages, this`conversations, this`people, this`profiles, this`events, this`calls, handles
      ensures Valid() && IsBuild(mapping, self, snap, handles.handleByFull, false, View())
      ensures old(handles.State()) == EMPTY ==> handles.State() == BuildBook(handles.sha, ConvIdsOf(mapping, snap), Elems(messages))
    {
      hide EntityTable, MetaOf, FullMessages, Targets, Records, IsPeople, IsConversations;
      LoadBase(mapping, self, snap);
      MetaIdsKeys(ConvRows(mapping, Records(snap, Targets(mapping, snap, ConversationEntity))));
      var convTargets := Targets(mapping, snap, ConversationEntity);
      RecomputeDerived(self, ConvMetaOf(mapping, snap, convTargets));
      ByKeyFacts(messages);
      FollowsFromParts(mapping, self, snap, convTargets, handles.handleByFull, false, Elems(messages), View());
    }
  }

  /** Full rebuild: conversation meta, folded messages, whole-store tables, derived tables, then the index unless deferred. */
  method BuildStore(mapping: Mapping, self: Option<string>, snap: Snapshot, sha: Hash, ftsEnabled: bool, deferFts: bool)
    returns (store: ChatStore)
    ensures fresh(store) && fresh(store.handles) && store.Valid() && store.isOpen
    ensures IsBuild(mapping, self, snap, store.handles.handleByFull, store.IndexLive(), store.View())
    ensures store.handles.State() == BuildBook(sha, ConvIdsOf(mapping, snap), Elems(store.messages))
    ensures store.IndexLive() <==> ftsEnabled && !deferFts
    ensures store.handles.sha == sha && NamesOnly(sha, EMPTY, store.handles.State(), IdsOf(store.View()))
  {
    hide NamesOnly, Records, IsPeople, IsConversations, EntityTable, FullMessages, Targets, IsIndex, BuildBook, ConvIdsOf, ByKey;
    store := new ChatStore(sha, ftsEnabled);
    store.LoadTables(mapping, self, snap);
    ghost var c := store.View();
    if !deferFts {
      store.RefreshFts(None, []);
    }
    ByKeyFacts(store.messages);
    assert store.View() == c.(fts := store.fts);
    BuiltNames(mapping, self, snap, sha, store.handles.handleByFull, c);
  }

  lemma BuiltNames(mapping: Mapping, self: Option<string>, snap: Snapshot, sha: Hash, book: map<string, string>, c: Contents)
    requires IsBuild(mapping, self, snap, book, false, c)
    ensures NamesOnly(sha, EMPTY, BuildBook(sha, ConvIdsOf(mapping, snap), c.messages.Values), IdsOf(c))
  {
    hide KeepsShort, IsBuild, BuildBook, Records, MetaIds, MetaOf;
    MetaIdsKeys(ConvRows(mapping, Records(snap, Targets(mapping, snap, ConversationEntity))));
    BuildNamesOwn(mapping, self, snap, sha, ConvIdsOf(mapping, snap), book, false, c);
  }
}
