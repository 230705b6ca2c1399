/** What a full build of a snapshot is, what the incremental apply produces, and when they agree. */
module Builds {
  import opened Base
  import opened Tables
  import opened Source
  import opened Recompute
  import opened Delta
  import opened Sorting
  import opened Handles

  datatype FtsRow = FtsRow(content: string, convId: string, id: string)

  /** Every table of the store; the search index is a list of rows with no key of its own. */
  datatype Contents = Contents(
    messages: MessageTable, conversations: map<string, Conversation>, people: map<string, Person>,
    profiles: map<string, Row>, events: map<string, Row>, calls: map<string, Row>, fts: seq<FtsRow>)

  /** What an ingest records for later increments. */
  datatype IngestState = IngestState(selfMri: Option<string>, msgTargets: seq<string>, convTargets: seq<string>, maxSeq: nat)

  function SelfText(self: Option<string>): string {
    if self.Some? then self.value else ""
  }

  /** Ids of conversations and of people. */
  datatype Ids = Ids(convs: set<string>, people: set<string>)

  function IdsOf(c: Contents): Ids {
    Ids(c.conversations.Keys, c.people.Keys)
  }

  function BothIds(a: Ids, b: Ids): Ids {
    Ids(a.convs + b.convs, a.people + b.people)
  }

  /** Between the two allocator states only `ids` were given handles. */
  ghost predicate NamesOnly(sha: Hash, before: Book, after: Book, ids: Ids) {
    KeepsShort(sha, before, after, ids.convs, ids.people)
  }

  lemma NamesTwice(sha: Hash, a: Book, b: Book, c: Book, ids: Ids, more: Ids)
    requires NamesOnly(sha, a, b, ids) && NamesOnly(sha, b, c, more)
    ensures NamesOnly(sha, a, c, BothIds(ids, more))
  {
    KeepsShortTwice(sha, a, b, c, ids.convs, ids.people, more.convs, more.people);
  }

  lemma NamesNobody(sha: Hash, b: Book, ids: Ids)
    ensures NamesOnly(sha, b, b, ids)
  {
  }

  // ---- whole-store entities ----

  function ConvRows(mapping: Mapping, recs: seq<Rec>): seq<ConvMeta> {
    if recs == [] then [] else ConvRows(mapping, recs[..|recs| - 1]) + mapping.conversations(recs[|recs| - 1].value)
  }

  /** The last record of each conversation; rows without an id are skipped. */
  function MetaOf(rows: seq<ConvMeta>): map<string, ConvMeta> {
    if rows == [] then map[]
    else
      var c := rows[|rows| - 1];
      var rest := MetaOf(rows[..|rows| - 1]);
      if c.id == "" then rest else rest[c.id := c]
  }

  function EntityRows(mapping: Mapping, e: Entity, recs: seq<Rec>): seq<Row> {
    if recs == [] then [] else EntityRows(mapping, e, recs[..|recs| - 1]) + mapping.rows(e, recs[|recs| - 1])
  }

  /** A profile needs an id and a name; other rows are always kept. */
  predicate Storable(e: Entity, r: Row) {
    e == ProfileEntity ==> r.id != "" && |r.columns| > 0 && r.columns[0].Some? && r.columns[0].value != ""
  }

  /** `insert or replace`, row by row, into an emptied table. */
  function RowTable(e: Entity, rows: seq<Row>): map<string, Row> {
    if rows == [] then map[]
    else
      var r := rows[|rows| - 1];
      var rest := RowTable(e, rows[..|rows| - 1]);
      if Storable(e, r) then rest[r.id := r] else rest
  }

  function EntityTable(mapping: Mapping, snap: Snapshot, e: Entity): map<string, Row> {
    RowTable(e, EntityRows(mapping, e, Records(snap, Targets(mapping, snap, e))))
  }

  function ConvMetaOf(mapping: Mapping, snap: Snapshot, convTargets: seq<string>): map<string, ConvMeta> {
    MetaOf(ConvRows(mapping, Records(snap, convTargets)))
  }

  // ---- handle assignment ----

  function MetaIds(rows: seq<ConvMeta>): seq<string> {
    if rows == [] then []
    else
      var rest := MetaIds(rows[..|rows| - 1]);
      if rows[|rows| - 1].id == "" then rest else rest + [rows[|rows| - 1].id]
  }

  /** Handles are assigned to conversation records in order, then to the conversations known only from messages in id
      order, then to the senders in id order. */
  ghost function BuildBook(sha: Hash, metaIds: seq<string>, rows: set<Message>): Book {
    TextOrder();
    var records := AssignAll(sha, EMPTY, 'c', metaIds);
    var convs := AssignAll(sha, records, 'c', OrderBy(TextLess, ConvIds(rows) - Elems(metaIds)));
    AssignAll(sha, convs, 'p', OrderBy(TextLess, Senders(rows)))
  }

  lemma StartMeta(metas: seq<ConvMeta>)
    ensures MetaOf(metas[..0]) == map[] && MetaIds(metas[..0]) == []
  {
  }

  lemma MetaStep(metas: seq<ConvMeta>, i: nat)
    requires i < |metas|
    ensures MetaOf(metas[..i + 1]) == if metas[i].id == "" then MetaOf(metas[..i]) else MetaOf(metas[..i])[metas[i].id := metas[i]]
    ensures MetaIds(metas[..i + 1]) == if metas[i].id == "" then MetaIds(metas[..i]) else MetaIds(metas[..i]) + [metas[i].id]
  {
    assert metas[..i + 1][..i] == metas[..i];
  }

  lemma {:induction false} MetaIdsKeys(rows: seq<ConvMeta>)
    ensures MetaOf(rows).Keys == Elems(MetaIds(rows))
  {
    if rows != [] {
      MetaIdsKeys(rows[..|rows| - 1]);
      ElemsAppend(MetaIds(rows[..|rows| - 1]), [rows[|rows| - 1].id]);
    }
  }

  // ---- the search index ----

  function Indexed(rows: set<Message>): set<FtsRow> {
    set m | m in rows && !m.isSystem && m.content != "" :: FtsRow(m.content, m.convId, m.id)
  }

  /** Each indexable message has exactly one index row, and there are no others. */
  ghost predicate IsIndex(fts: seq<FtsRow>, rows: set<Message>) {
    NoDup(fts) && Elems(fts) == Indexed(rows)
  }

  // ---- builds ----

  /** Everything but the messages is determined by the messages, the snapshot and the handles. */
  ghost predicate Follows(mapping: Mapping, self: Option<string>, snap: Snapshot, convTargets: seq<string>, book: map<string,
                          string>,
                          indexed: bool, c: Contents) {
    && IsPeople(c.messages.Values, book, c.people)
    && IsConversations(c.messages.Values, ConvMetaOf(mapping, snap, convTargets), book, SelfText(self), c.people, c.conversations)
    && c.profiles == EntityTable(mapping, snap, ProfileEntity)
    && c.events == EntityTable(mapping, snap, EventEntity)
    && c.calls == EntityTable(mapping, snap, CallEntity)
    && (indexed ==> IsIndex(c.fts, c.messages.Values))
  }

  function MessageRecords(mapping: Mapping, snap: Snapshot): seq<Rec> {
    Records(snap, Targets(mapping, snap, MessageEntity))
  }

  /** The store a full build of `snap` leaves. */
  ghost predicate IsBuild(mapping: Mapping, self: Option<string>, snap: Snapshot, book: map<string, string>, indexed: bool,
                          c: Contents) {
    && c.messages == FullMessages(mapping, self, MessageRecords(mapping, snap))
    && Follows(mapping, self, snap, Targets(mapping, snap, ConversationEntity), book, indexed, c)
  }

  /** The state a build of `snap` records. */
  function StateOf(mapping: Mapping, self: Option<string>, snap: Snapshot): IngestState {
    IngestState(self, Targets(mapping, snap, MessageEntity), Targets(mapping, snap, ConversationEntity), snap.maxSeq)
  }

  /** The store an increment to `snap` leaves, from the stored messages. */
  ghost predicate IsIncrement(mapping: Mapping, state: IngestState, snap: Snapshot, stored: MessageTable, book: map<string,
                              string>,
                              indexed: bool, c: Contents) {
    && c.messages == DeltaMessages(mapping, state.selfMri, stored, state.maxSeq, Records(snap, state.msgTargets))
    && Follows(mapping, state.selfMri, snap, state.convTargets, book, indexed, c)
  }

  /** The parts of a store, assembled. */
  lemma FollowsFromParts(mapping: Mapping, self: Option<string>, snap: Snapshot, convTargets: seq<string>, book: map<string,
                         string>,
                         indexed: bool, rows: set<Message>, c: Contents)
    requires c.messages.Values == rows
    requires IsPeople(rows, book, c.people)
    requires IsConversations(rows, ConvMetaOf(mapping, snap, convTargets), book, SelfText(self), c.people, c.conversations)
    requires c.profiles == EntityTable(mapping, snap, ProfileEntity)
    requires c.events == EntityTable(mapping, snap, EventEntity)
    requires c.calls == EntityTable(mapping, snap, CallEntity)
    requires indexed ==> IsIndex(c.fts, rows)
    ensures Follows(mapping, self, snap, convTargets, book, indexed, c)
  {
  }

  /** `after` gives the ids of the stored rows the handles `before` gave them. */
  ghost predicate Seeded(before: map<string, string>, after: map<string, string>, c: Contents) {
    forall id :: id in before && (id in c.conversations || id in c.people) ==> id in after && after[id] == before[id]
  }

  /** A build stays one under an allocator that only knows the stored rows' handles. */
  lemma SeededBuild(mapping: Mapping, self: Option<string>, snap: Snapshot, before: map<string, string>, after: map<string,
                    string>,
                    indexed: bool, c: Contents)
    requires IsBuild(mapping, self, snap, before, indexed, c) && Seeded(before, after, c)
    ensures IsBuild(mapping, self, snap, after, indexed, c)
  {
    hide EntityTable, FullMessages, Targets, IsIndex, HasMeta, ParticipantNames;
    var rows := c.messages.Values;
    assert IsPeople(rows, after, c.people);
    assert IsConversations(rows, ConvMetaOf(mapping, snap, Targets(mapping, snap, ConversationEntity)), after, SelfText(self), c.people,
                           c.conversations);
  }

  // ---- snapshots with one build ----

  predicate WholeStore(e: Entity) {
    e == ProfileEntity || e == EventEntity || e == CallEntity
  }

  /** The meta columns a conversation shows: those of its record, null and zero without one. */
  function ShownMeta(meta: map<string, ConvMeta>, id: string): (Option<string>, Option<string>, Option<string>, int) {
    if id in meta then (meta[id].topic, meta[id].teamId, meta[id].threadType, meta[id].metaLastTs) else BLANK
  }

  const BLANK: (Option<string>, Option<string>, Option<string>, int) := (None, None, None, 0)

  /** The same conversations, showing the same columns. */
  ghost predicate SameConversations(rows: set<Message>, meta0: map<string, ConvMeta>, meta1: map<string, ConvMeta>) {
    && meta0.Keys + ConvIds(rows) == meta1.Keys + ConvIds(rows)
    && forall id :: ShownMeta(meta0, id) == ShownMeta(meta1, id)
  }

  /** Both snapshots show the same in every table. */
  ghost predicate SameShown(mapping: Mapping, self: Option<string>, prior: Snapshot, snap: Snapshot) {
    && FullMessages(mapping, self, MessageRecords(mapping, prior)) == FullMessages(mapping, self, MessageRecords(mapping, snap))
    && SameConversations(FullMessages(mapping, self, MessageRecords(mapping, prior)).Values,
                         ConvMetaOf(mapping, prior, Targets(mapping, prior, ConversationEntity)),
                         ConvMetaOf(mapping, snap, Targets(mapping, snap, ConversationEntity)))
    && forall e :: WholeStore(e) ==> EntityTable(mapping, prior, e) == EntityTable(mapping, snap, e)
  }

  /** A store left as it is stays a full build exactly when the snapshots show the same. */
  lemma KeptIsBuild(mapping: Mapping, self: Option<string>, prior: Snapshot, snap: Snapshot, book: map<string, string>,
                    indexed: bool, c: Contents)
    requires IsBuild(mapping, self, prior, book, indexed, c)
    ensures IsBuild(mapping, self, snap, book, indexed, c) <==> SameShown(mapping, self, prior, snap)
  {
    hide IsPeople, ConvMetaOf, EntityTable, FullMessages, Targets, IsIndex;
    var rows := c.messages.Values;
    var meta0 := ConvMetaOf(mapping, prior, Targets(mapping, prior, ConversationEntity));
    var meta1 := ConvMetaOf(mapping, snap, Targets(mapping, snap, ConversationEntity));
    KeptConversations(rows, meta0, meta1, book, SelfText(self), c.people, c.conversations);
  }

  lemma KeptConversations(rows: set<Message>, meta0: map<string, ConvMeta>, meta1: map<string, ConvMeta>, book: map<string,
                          string>,
                          self: string, people: map<string, Person>, convs: map<string, Conversation>)
    requires IsConversations(rows, meta0, book, self, people, convs)
    ensures IsConversations(rows, meta1, book, self, people, convs) <==> SameConversations(rows, meta0, meta1)
  {
    hide ParticipantNames, Activity, In, Senders, ConvIds;
    forall id | id in convs
      ensures HasMeta(meta1, id, convs[id]) <==> ShownMeta(meta0, id) == ShownMeta(meta1, id)
    {
      assert HasMeta(meta0, id, convs[id]);
    }
  }

  ghost predicate AllReconcilable(mapping: Mapping, self: Option<string>, stored: MessageTable, floor: nat, recs: seq<Rec>) {
    forall k :: Reconcilable(mapping, self, stored, floor, recs, k)
  }

  /** Main result. After an increment from the build of `prior`, the store is a full build of `snap` iff every key
      is reconcilable: messages, people, conversations, profiles, events, calls and search index together. */
  lemma IncrementIsFullBuild(mapping: Mapping, self: Option<string>, prior: Snapshot, snap: Snapshot,
                             book0: map<string, string>, c0: Contents, book1: map<string, string>, c1: Contents, indexed: bool)
    requires IsBuild(mapping, self, prior, book0, indexed, c0)
    requires IsIncrement(mapping, StateOf(mapping, self, prior), snap, c0.messages, book1, indexed, c1)
    requires TargetSet(mapping, prior, MessageEntity) == TargetSet(mapping, snap, MessageEntity)
    requires TargetSet(mapping, prior, ConversationEntity) == TargetSet(mapping, snap, ConversationEntity)
    requires DistinctKeys(MessageRecords(mapping, prior)) && DistinctKeys(MessageRecords(mapping, snap))
    requires Carried(MessageRecords(mapping, prior), prior.maxSeq, MessageRecords(mapping, snap))
    ensures IsBuild(mapping, self, snap, book1, indexed, c1)
       <==> AllReconcilable(mapping, self, c0.messages, prior.maxSeq, MessageRecords(mapping, snap))
  {
    DeltaEqualsFull(mapping, self, MessageRecords(mapping, prior), prior.maxSeq, MessageRecords(mapping, snap));
  }

  ghost predicate AllAgree(mapping: Mapping, self: Option<string>, stored: MessageTable, floor: nat, recs: seq<Rec>) {
    forall k :: Agrees(mapping, self, stored, floor, recs, k)
  }

  /** The same over any stored messages whatever, as long as the mapped stores are those of `snap`: a delta gives a full build iff it
      gives that build's messages; everything else follows. */
  lemma IncrementOverAnything(mapping: Mapping, state: IngestState, snap: Snapshot, stored: MessageTable, book: map<string,
                              string>,
                              c: Contents, indexed: bool)
    requires IsIncrement(mapping, state, snap, stored, book, indexed, c) && DistinctKeys(MessageRecords(mapping, snap))
    requires state.msgTargets == Targets(mapping, snap, MessageEntity) && state.convTargets == Targets(mapping, snap, ConversationEntity)
    ensures var recs := MessageRecords(mapping, snap);
      && (IsBuild(mapping, state.selfMri, snap, book, indexed, c) <==>
          DeltaMessages(mapping, state.selfMri, stored, state.maxSeq, recs) == FullMessages(mapping, state.selfMri, recs))
      && (IsBuild(mapping, state.selfMri, snap, book, indexed, c) <==> AllAgree(mapping, state.selfMri, stored, state.maxSeq, recs))
  {
    hide Agrees, Follows, FullMessages, DeltaMessages;
    DeltaAgrees(mapping, state.selfMri, stored, state.maxSeq, MessageRecords(mapping, snap));
  }

  /** The same rows in every table; index rows may stand in another order. */
  ghost predicate SameRows(indexed: bool, c1: Contents, c2: Contents) {
    c1 == c2.(fts := c1.fts) && (indexed ==> multiset(c1.fts) == multiset(c2.fts))
  }

  /** Two builds of one snapshot with the same handles hold the same rows in every table. */
  lemma BuildUnique(mapping: Mapping, self: Option<string>, snap: Snapshot, book: map<string, string>, indexed: bool,
                    c1: Contents, c2: Contents)
    requires IsBuild(mapping, self, snap, book, indexed, c1) && IsBuild(mapping, self, snap, book, indexed, c2)
    requires NamesAgree(c1.messages.Values)
    ensures SameRows(indexed, c1, c2)
  {
    var rows := c1.messages.Values;
    DerivedUnique(rows, ConvMetaOf(mapping, snap, Targets(mapping, snap, ConversationEntity)), book, SelfText(self),
                  c1.people, c1.conversations, c2.people, c2.conversations);
    if indexed {
      NoDupMultiset(c1.fts);
      NoDupMultiset(c2.fts);
    }
  }

  /** A fresh build's handles are short as long as no six digits collide and nobody is also a conversation. */
  lemma BuildBookShort(sha: Hash, metaIds: seq<string>, rows: set<Message>, convs: set<string>, people: set<string>)
    requires convs !! people && NoShortCollision(sha, convs + people)
    requires Elems(metaIds) + ConvIds(rows) <= convs && Senders(rows) <= people
    ensures ShortIn(sha, convs, people, BuildBook(sha, metaIds, rows))
  {
    hide NoShortCollision, AssignAll, OrderBy, Lists, StrictTotal, Senders, ConvIds;
    TextOrder();
    var missing, senders := OrderBy(TextLess, ConvIds(rows) - Elems(metaIds)), OrderBy(TextLess, Senders(rows));
    ListsElems(TextLess, missing, ConvIds(rows) - Elems(metaIds));
    ListsElems(TextLess, senders, Senders(rows));
    AssignAllShort(sha, convs, people, EMPTY, 'c', metaIds);
    var b1 := AssignAll(sha, EMPTY, 'c', metaIds);
    AssignAllShort(sha, convs, people, b1, 'c', missing);
    AssignAllShort(sha, convs, people, AssignAll(sha, b1, 'c', missing), 'p', senders);
  }

  /** A fresh build names its own conversations and people and nobody else. */
  lemma BuildNamesOwn(mapping: Mapping, self: Option<string>, snap: Snapshot, sha: Hash, metaIds: seq<string>,
                      book: map<string, string>,
                      indexed: bool, c: Contents)
    requires IsBuild(mapping, self, snap, book, indexed, c)
    requires Elems(metaIds) == ConvMetaOf(mapping, snap, Targets(mapping, snap, ConversationEntity)).Keys
    ensures NamesOnly(sha, EMPTY, BuildBook(sha, metaIds, c.messages.Values), IdsOf(c))
  {
    hide IsPerson, IsConversation, EntityTable, FullMessages, IsIndex, BuildBook, ConvMetaOf, NoShortCollision;
    forall convs, people | c.conversations.Keys <= convs && c.people.Keys <= people && ShortIn(sha, convs, people, EMPTY)
      ensures ShortIn(sha, convs, people, BuildBook(sha, metaIds, c.messages.Values))
    {
      BuildBookShort(sha, metaIds, c.messages.Values, convs, people);
    }
  }

  /** Without six-digit collisions even the handles agree: a store brought up to date by deltas and a fresh build of the same snapshot
      hold the very same rows. */
  lemma SameTables(mapping: Mapping, self: Option<string>, snap: Snapshot, sha: Hash, convs: set<string>, people: set<string>,
                   indexed: bool, book1: Book, c1: Contents, book2: Book, c2: Contents)
    requires IsBuild(mapping, self, snap, book1.byFull, indexed, c1) && IsBuild(mapping, self, snap, book2.byFull, indexed, c2)
    requires ShortIn(sha, convs, people, book1) && ShortIn(sha, convs, people, book2) && NamesAgree(c1.messages.Values)
    ensures SameRows(indexed, c1, c2)
  {
    hide EntityTable, FullMessages, Targets, IsIndex, HasMeta, ParticipantNames, NoShortCollision, ShortHandle, NamesAgree,
         ConvMetaOf;
    assert c1.people.Keys == c2.people.Keys && c1.conversations.Keys == c2.conversations.Keys;
    assert Seeded(book1.byFull, book2.byFull, c1);
    SeededBuild(mapping, self, snap, book1.byFull, book2.byFull, indexed, c1);
    BuildUnique(mapping, self, snap, book2.byFull, indexed, c1, c2);
  }

  lemma {:induction false} NoDupMultiset<T>(s: seq<T>)
    requires NoDup(s)
    ensures multiset(s) == multiset(Elems(s))
  {
    if s != [] {
      var n := |s| - 1;
      assert s == s[..n] + [s[n]];
      NoDupMultiset(s[..n]);
      ElemsAppend(s[..n], [s[n]]);
      assert s[n] !in s[..n];
    }
  }
}
