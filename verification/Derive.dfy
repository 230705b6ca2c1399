/** The derivation that needs no SQL: two passes over the message rows with mutable accumulators, and
    exactly when it agrees with the SQL recompute. */
module Derive {
  import opened Base
  import opened Tables
  import opened Source
  import opened Recompute
  import opened Builds
  import opened Handles
  import opened Sorting
  import opened MessageFold

  // ---- what the single pass computes ----

  /** The running maxima start at zero, so a group's newest timestamp is never below it. */
  ghost function Peak(rows: set<Message>): int {
    if rows == {} then 0 else Max(0, MaxTs(rows))
  }

  /** The name search starts below every row with ts >= 0, at (-1, ""). */
  ghost predicate IsScannedName(mine: set<Message>, name: string) {
    if exists m :: m in mine && After(m, -1, "") then IsLatestName(mine, name) else name == ""
  }

  ghost predicate IsDerivedPerson(rows: set<Message>, book: map<string, string>, mri: string, p: Person) {
    var mine := From(rows, mri);
    && mri in book && p.handle == book[mri]
    && IsScannedName(mine, p.name)
    && p.msgCount == |mine| && p.lastTs == Peak(mine)
  }

  ghost predicate IsDerivedConversation(rows: set<Message>, meta: map<string, ConvMeta>, book: map<string, string>, self: string,
                                        people: map<string, Person>, id: string, c: Conversation) {
    && id in book && c.handle == book[id]
    && c.kind == ConvKind(id) && HasMeta(meta, id, c)
    && c.msgCount == |In(rows, id)|
    && c.participantCount == |Senders(In(rows, id))|
    && c.activityTs == Peak(In(rows, id))
    && c.lastTs == Max(c.metaLastTs, Peak(In(rows, id)))
    && c.participantNames == ParticipantNames(rows, id, self, NamesOfPeople(people))
  }

  ghost predicate IsDerived(rows: set<Message>, meta: map<string, ConvMeta>, book: map<string, string>, self: string,
                            people: map<string, Person>, convs: map<string, Conversation>) {
    && people.Keys == Senders(rows)
    && (forall mri :: mri in people ==> IsDerivedPerson(rows, book, mri, people[mri]))
    && convs.Keys == meta.Keys + ConvIds(rows)
    && (forall id :: id in convs ==> IsDerivedConversation(rows, meta, book, self, people, id, convs[id]))
  }

  /** Every sender and every conversation has a non-system row that is not before the epoch. */
  ghost predicate PeaksAfterEpoch(rows: set<Message>) {
    && (forall mri :: mri in Senders(rows) ==> exists m :: m in From(rows, mri) && m.ts >= 0)
    && (forall id :: id in ConvIds(rows) && In(rows, id) != {} ==> exists m :: m in In(rows, id) && m.ts >= 0)
  }

  lemma PeakIsMax(rows: set<Message>)
    requires rows != {}
    ensures IsMaxTs(rows, Peak(rows)) <==> exists m :: m in rows && m.ts >= 0
  {
    MaxTsUnique(rows, MaxTs(rows));
    if IsMaxTs(rows, Peak(rows)) {
      MaxTsUnique(rows, Peak(rows));
    }
  }

  lemma SenderHasRows(rows: set<Message>, mri: string)
    ensures mri in Senders(rows) <==> From(rows, mri) != {}
  {
    if mri in Senders(rows) {
      var m :| m in rows && !m.isSystem && m.senderMri == mri;
      assert m in From(rows, mri);
    }
    if From(rows, mri) != {} {
      var m :| m in From(rows, mri);
    }
  }

  lemma PersonAgrees(rows: set<Message>, book: map<string, string>, mri: string, p: Person)
    requires IsDerivedPerson(rows, book, mri, p) && mri in Senders(rows)
    ensures IsPerson(rows, book, mri, p) <==> exists m :: m in From(rows, mri) && m.ts >= 0
  {
    SenderHasRows(rows, mri);
    PeakIsMax(From(rows, mri));
    if m :| m in From(rows, mri) && m.ts >= 0 {
      assert After(m, -1, "");
    }
  }

  lemma ConversationAgrees(rows: set<Message>, meta: map<string, ConvMeta>, book: map<string, string>, self: string,
                           people: map<string, Person>, id: string, c: Conversation)
    requires IsDerivedConversation(rows, meta, book, self, people, id, c)
    ensures IsConversation(rows, meta, book, self, people, id, c) <==>
      (In(rows, id) == {} || exists m :: m in In(rows, id) && m.ts >= 0)
  {
    var here := In(rows, id);
    if here != {} {
      PeakIsMax(here);
      MaxTsUnique(here, MaxTs(here));
    }
  }

  /** Main result: the single-pass tables are the recompute's tables iff no sender and no conversation has
      all its non-system rows before the epoch. */
  lemma DeriveIsRecompute(rows: set<Message>, meta: map<string, ConvMeta>, book: map<string, string>, self: string,
                          people: map<string, Person>, convs: map<string, Conversation>)
    requires IsDerived(rows, meta, book, self, people, convs)
    ensures IsPeople(rows, book, people) && IsConversations(rows, meta, book, self, people, convs) <==> PeaksAfterEpoch(rows)
  {
    hide IsPerson, IsConversation, IsDerivedPerson, IsDerivedConversation;
    forall mri | mri in people
      ensures IsPerson(rows, book, mri, people[mri]) <==> exists m :: m in From(rows, mri) && m.ts >= 0
    {
      PersonAgrees(rows, book, mri, people[mri]);
    }
    forall id | id in convs
      ensures IsConversation(rows, meta, book, self, people, id, convs[id]) <==>
        (In(rows, id) == {} || exists m :: m in In(rows, id) && m.ts >= 0)
    {
      ConversationAgrees(rows, meta, book, self, people, id, convs[id]);
    }
    forall id | id !in ConvIds(rows)
      ensures In(rows, id) == {}
    {
      assert forall m :: m in In(rows, id) ==> m in rows && m.convId == id;
    }
  }

  /** The derivation from a build's own rows against that build's tables: with names settled and the same handles, the
      rows are identical iff the peaks are after the epoch. */
  lemma DeriveMatchesBuild(mapping: Mapping, self: Option<string>, snap: Snapshot, book: map<string, string>, c: Contents,
                           people: map<string, Person>, convs: map<string, Conversation>)
    requires IsBuild(mapping, self, snap, book, true, c) && NamesAgree(c.messages.Values)
    requires IsDerived(c.messages.Values, ConvMetaOf(mapping, snap, Targets(mapping, snap, ConversationEntity)), book,
                       SelfText(self), people, convs)
    ensures people == c.people && convs == c.conversations <==> PeaksAfterEpoch(c.messages.Values)
  {
    var rows, meta := c.messages.Values, ConvMetaOf(mapping, snap, Targets(mapping, snap, ConversationEntity));
    hide IsPeople, IsConversations, IsDerived, EntityTable, PeaksAfterEpoch;
    DeriveIsRecompute(rows, meta, book, SelfText(self), people, convs);
    if PeaksAfterEpoch(rows) {
      DerivedUnique(rows, meta, book, SelfText(self), people, convs, c.people, c.conversations);
    }
  }

  function OldMessage(): Message {
    Message("c", "m", "", 0, -5, "p", "P", "other", false, false, false, false, "", None, "m")
  }

  lemma OldGroups()
    ensures var rows := {OldMessage()};
      && From(rows, "p") == rows && In(rows, "c") == rows && Senders(rows) == {"p"} && ConvIds(rows) == {"c"}
      && MaxTs(rows) == -5 && IsMaxTs(rows, -5) && !IsMaxTs(rows, 0) && Peak(rows) == 0
      && IsLatestName(rows, "P") && forall m :: m in rows ==> !After(m, -1, "")
  {
    var rows := {OldMessage()};
    assert OldMessage() in rows;
    MaxTsUnique(rows, -5);
    TextIrreflexive("m");
    assert From(rows, "p") == rows && In(rows, "c") == rows;
  }

  /** A sender without a name takes no place among the participants. */
  lemma NobodyNamed(rows: set<Message>, id: string, self: string, names: map<string, string>)
    requires forall mri :: mri in names ==> names[mri] == ""
    ensures ParticipantNames(rows, id, self, names) == None
  {
    AheadOrder();
    assert Standings(rows, id, self, names) == {};
  }

  /** One message, five milliseconds before the epoch. The single pass shows its sender without a name and both rows as active at the
      epoch; the recompute shows the name and the true time. */
  lemma BeforeEpoch()
    ensures var rows, book := {OldMessage()}, map["p" := "p:1", "c" := "c:1"];
      var people := map["p" := Person("p:1", "", 1, 0)];
      var convs := map["c" := Conversation("c:1", ConvKind("c"), None, None, None, 0, 1, None, 1, 0, 0)];
      && IsDerived(rows, map[], book, "", people, convs)
      && !IsPeople(rows, book, people) && !IsConversations(rows, map[], book, "", people, convs)
      && IsPeople(rows, book, map["p" := Person("p:1", "P", 1, -5)])
  {
    hide OldMessage, From, In, Senders, ConvIds, MaxTs, Peak, IsMaxTs, IsLatestName, After, ConvKind, ParticipantNames;
    OldGroups();
    var people := map["p" := Person("p:1", "", 1, 0)];
    NobodyNamed({OldMessage()}, "c", "", NamesOfPeople(people));
  }

  // ---- accumulators ----

  datatype PersonAcc = PersonAcc(count: nat, last: int, nameTs: int, nameId: string, name: string)

  const NOBODY := PersonAcc(0, 0, -1, "", "")

  function BumpPerson(a: PersonAcc, m: Message): PersonAcc {
    var b := a.(count := a.count + 1, last := if m.ts > a.last then m.ts else a.last);
    if After(m, a.nameTs, a.nameId) then b.(nameTs := m.ts, nameId := m.id, name := m.senderName) else b
  }

  ghost predicate IsPersonAcc(mine: set<Message>, a: PersonAcc) {
    && a.count == |mine| && a.last == Peak(mine)
    && (forall n :: n in mine ==> !After(n, a.nameTs, a.nameId))
    && ((a.nameTs == -1 && a.nameId == "" && a.name == "")
        || exists m :: m in mine && m.ts == a.nameTs && m.id == a.nameId && m.senderName == a.name && After(m, -1, ""))
  }

  lemma PeakAdd(rows: set<Message>, m: Message)
    ensures Peak(rows + {m}) == Max(Peak(rows), m.ts)
  {
    MaxTsAdd(rows, m);
  }

  lemma AfterTransitive(a: Message, b: Message, ts: int, id: string)
    requires After(a, b.ts, b.id) && After(b, ts, id)
    ensures After(a, ts, id)
  {
    if a.ts == b.ts && b.ts == ts {
      TextTransitive(id, b.id, a.id);
    }
  }

  lemma BumpPersonAcc(mine: set<Message>, a: PersonAcc, m: Message)
    requires IsPersonAcc(mine, a) && m !in mine
    ensures IsPersonAcc(mine + {m}, BumpPerson(a, m))
  {
    PeakAdd(mine, m);
    var b := BumpPerson(a, m);
    TextIrreflexive(m.id);
    if After(m, a.nameTs, a.nameId) {
      forall n | n in mine + {m}
        ensures !After(n, m.ts, m.id)
      {
        if n != m && After(n, m.ts, m.id) {
          AfterTransitive(n, m, a.nameTs, a.nameId);
        }
      }
      assert After(m, -1, "") by {
        if w :| w in mine && w.ts == a.nameTs && w.id == a.nameId && After(w, -1, "") {
          AfterTransitive(m, w, -1, "");
        }
      }
      assert m in mine + {m};
    } else if w :| w in mine && w.ts == a.nameTs && w.id == a.nameId && w.senderName == a.name && After(w, -1, "") {
      assert w in mine + {m};
    }
  }

  lemma PersonAccName(mine: set<Message>, a: PersonAcc)
    requires IsPersonAcc(mine, a)
    ensures IsScannedName(mine, a.name)
  {
    if n :| n in mine && After(n, -1, "") {
      var m :| m in mine && m.ts == a.nameTs && m.id == a.nameId && m.senderName == a.name && After(m, -1, "");
      assert forall x :: x in mine ==> !After(x, m.ts, m.id);
    }
  }

  datatype ConvAcc = ConvAcc(count: nat, activity: int, parts: map<string, int>)

  const QUIET := ConvAcc(0, 0, map[])

  function BumpConv(a: ConvAcc, m: Message): ConvAcc {
    ConvAcc(a.count + 1, if m.ts > a.activity then m.ts else a.activity,
            if m.senderMri !in a.parts || m.ts > a.parts[m.senderMri] then a.parts[m.senderMri := m.ts] else a.parts)
  }

  ghost predicate IsConvAcc(here: set<Message>, a: ConvAcc) {
    && a.count == |here| && a.activity == Peak(here)
    && a.parts.Keys == Senders(here)
    && (forall mri :: mri in a.parts ==> IsMaxTs(From(here, mri), a.parts[mri]))
  }

  lemma BumpConvAcc(here: set<Message>, a: ConvAcc, m: Message)
    requires IsConvAcc(here, a) && m !in here && !m.isSystem
    ensures IsConvAcc(here + {m}, BumpConv(a, m))
  {
    hide From, IsMaxTs, MaxTs, Senders;
    PeakAdd(here, m);
    var b, now := BumpConv(a, m), here + {m};
    SendersAdd(here, m);
    forall mri | mri in b.parts
      ensures IsMaxTs(From(now, mri), b.parts[mri])
    {
      BumpPart(here, a, m, mri);
    }
  }

  lemma BumpPart(here: set<Message>, a: ConvAcc, m: Message, mri: string)
    requires IsConvAcc(here, a) && m !in here && !m.isSystem && mri in BumpConv(a, m).parts
    ensures IsMaxTs(From(here + {m}, mri), BumpConv(a, m).parts[mri])
  {
    FromAdd(here, m, mri);
    if mri == m.senderMri {
      SenderHasRows(here, mri);
      if mri in a.parts {
        MaxTsUnique(From(here, mri), a.parts[mri]);
      }
      MaxTsAdd(From(here, mri), m);
    }
  }

  // ---- the passes ----

  lemma RowsStep(msgs: seq<Message>, i: nat)
    requires UniqueKeys(msgs) && i < |msgs|
    ensures Elems(msgs[..i + 1]) == Elems(msgs[..i]) + {msgs[i]} && msgs[i] !in Elems(msgs[..i])
  {
    ElemsStep(msgs, i);
  }

  function AccOf<V>(m: map<string, V>, k: string, initial: V): V {
    if k in m then m[k] else initial
  }

  function StepPeople(pstat: map<string, PersonAcc>, m: Message): map<string, PersonAcc> {
    if m.isSystem then pstat else pstat[m.senderMri := BumpPerson(AccOf(pstat, m.senderMri, NOBODY), m)]
  }

  ghost predicate ArePersonAccs(rows: set<Message>, pstat: map<string, PersonAcc>) {
    && pstat.Keys == Senders(rows)
    && forall mri :: mri in pstat ==> IsPersonAcc(From(rows, mri), pstat[mri])
  }

  lemma StepPeopleAccs(rows: set<Message>, pstat: map<string, PersonAcc>, m: Message)
    requires ArePersonAccs(rows, pstat) && m !in rows
    ensures ArePersonAccs(rows + {m}, StepPeople(pstat, m))
  {
    hide IsPersonAcc;
    SendersAdd(rows, m);
    var r := StepPeople(pstat, m);
    forall mri | mri in r
      ensures IsPersonAcc(From(rows + {m}, mri), r[mri])
    {
      FromAdd(rows, m, mri);
      if !m.isSystem && mri == m.senderMri {
        SenderHasRows(rows, mri);
        EmptyAccs();
        BumpPersonAcc(From(rows, mri), AccOf(pstat, mri, NOBODY), m);
      } else {
        assert From(rows + {m}, mri) == From(rows, mri);
      }
    }
  }

  method CollectPeople(msgs: seq<Message>) returns (pstat: map<string, PersonAcc>)
    requires UniqueKeys(msgs)
    ensures ArePersonAccs(Elems(msgs), pstat)
  {
    pstat := map[];
    for i := 0 to |msgs|
      invariant ArePersonAccs(Elems(msgs[..i]), pstat)
    {
      RowsStep(msgs, i);
      StepPeopleAccs(Elems(msgs[..i]), pstat, msgs[i]);
      var m := msgs[i];
      if m.isSystem {
        continue;
      }
      pstat := pstat[m.senderMri := BumpPerson(AccOf(pstat, m.senderMri, NOBODY), m)];
    }
    ElemsAll(msgs);
  }

  lemma EmptyAccs()
    ensures IsPersonAcc({}, NOBODY) && IsConvAcc({}, QUIET)
  {
  }

  lemma SendersAdd(rows: set<Message>, m: Message)
    ensures Senders(rows + {m}) == Senders(rows) + (if m.isSystem then {} else {m.senderMri})
  {
  }

  /** Conversations with at least one non-system row. */
  ghost function Active(rows: set<Message>): set<string> {
    set m | m in rows && !m.isSystem :: m.convId
  }

  lemma ActiveAdd(rows: set<Message>, m: Message)
    ensures Active(rows + {m}) == Active(rows) + (if m.isSystem then {} else {m.convId})
  {
  }

  lemma ActiveHasRows(rows: set<Message>, id: string)
    ensures id in Active(rows) <==> In(rows, id) != {}
  {
    if id in Active(rows) {
      var m :| m in rows && !m.isSystem && m.convId == id;
      assert m in In(rows, id);
    }
    if In(rows, id) != {} {
      var m :| m in In(rows, id);
    }
  }

  function StepConvs(agg: map<string, ConvAcc>, m: Message): map<string, ConvAcc> {
    if m.isSystem then agg else agg[m.convId := BumpConv(AccOf(agg, m.convId, QUIET), m)]
  }

  ghost predicate AreConvAccs(rows: set<Message>, agg: map<string, ConvAcc>) {
    && agg.Keys == Active(rows)
    && forall id :: id in agg ==> IsConvAcc(In(rows, id), agg[id])
  }

  lemma StepConvAccs(rows: set<Message>, agg: map<string, ConvAcc>, m: Message)
    requires AreConvAccs(rows, agg) && m !in rows
    ensures AreConvAccs(rows + {m}, StepConvs(agg, m))
  {
    hide IsConvAcc;
    ActiveAdd(rows, m);
    var r := StepConvs(agg, m);
    forall id | id in r
      ensures IsConvAcc(In(rows + {m}, id), r[id])
    {
      InAdd(rows, m, id);
      if !m.isSystem && id == m.convId {
        ActiveHasRows(rows, id);
        EmptyAccs();
        BumpConvAcc(In(rows, id), AccOf(agg, id, QUIET), m);
      } else {
        assert In(rows + {m}, id) == In(rows, id);
      }
    }
  }

  method CollectConversations(msgs: seq<Message>) returns (agg: map<string, ConvAcc>)
    requires UniqueKeys(msgs)
    ensures AreConvAccs(Elems(msgs), agg)
  {
    agg := map[];
    for i := 0 to |msgs|
      invariant AreConvAccs(Elems(msgs[..i]), agg)
    {
      RowsStep(msgs, i);
      StepConvAccs(Elems(msgs[..i]), agg, msgs[i]);
      var m := msgs[i];
      if m.isSystem {
        continue;
      }
      agg := agg[m.convId := BumpConv(AccOf(agg, m.convId, QUIET), m)];
    }
    ElemsAll(msgs);
  }

  // ---- the tables ----

  function AsMap<V>(s: seq<(string, V)>): map<string, V> {
    if s == [] then map[] else AsMap(s[..|s| - 1])[s[|s| - 1].0 := s[|s| - 1].1]
  }

  function Names<V>(s: seq<(string, V)>): seq<string> {
    if s == [] then [] else Names(s[..|s| - 1]) + [s[|s| - 1].0]
  }

  lemma AsMapSnoc<V>(s: seq<(string, V)>, id: string, v: V)
    ensures AsMap(s + [(id, v)]) == AsMap(s)[id := v] && Names(s + [(id, v)]) == Names(s) + [id]
  {
    TakeAppend(s, (id, v));
  }

  /** Ids in first-occurrence order: the order of a JS Map. */
  function FirstIds(ids: seq<string>): seq<string> {
    if ids == [] then []
    else
      var rest := FirstIds(ids[..|ids| - 1]);
      if ids[|ids| - 1] in rest then rest else rest + [ids[|ids| - 1]]
  }

  lemma {:induction false} FirstIdsElems(ids: seq<string>)
    ensures Elems(FirstIds(ids)) == Elems(ids) && NoDup(FirstIds(ids))
  {
    if ids != [] {
      var n := |ids| - 1;
      FirstIdsElems(ids[..n]);
      ElemsStep(ids, n);
      ElemsAll(ids);
      ElemsAppend(FirstIds(ids[..n]), [ids[n]]);
    }
  }

  /** Rows of the conversation map while it is being built: meta columns and handle right, aggregates still zero. */
  ghost predicate IsBase(meta: map<string, ConvMeta>, book: Book, id: string, c: Conversation) {
    && id in book.byFull && c.handle == book.byFull[id] && c.kind == ConvKind(id) && HasMeta(meta, id, c)
    && c.msgCount == 0 && c.participantNames == None && c.participantCount == 0 && c.activityTs == 0 && c.lastTs == 0
  }

  ghost predicate AreBases(meta: map<string, ConvMeta>, book: Book, conv: map<string, Conversation>) {
    forall id :: id in conv ==> IsBase(meta, book, id, conv[id])
  }

  function NewConversation(h: string, c: ConvMeta): Conversation {
    Conversation(h, ConvKind(c.id), c.topic, c.teamId, c.threadType, c.metaLastTs, 0, None, 0, 0, 0)
  }

  function OverwriteMeta(row: Conversation, c: ConvMeta): Conversation {
    row.(kind := ConvKind(c.id), topic := c.topic, teamId := c.teamId, threadType := c.threadType, metaLastTs := c.metaLastTs)
  }

  lemma BasesUpsert(sha: Hash, meta: map<string, ConvMeta>, book: Book, conv: map<string, Conversation>, c: ConvMeta)
    requires Issued(book) && AreBases(meta, book, conv)
    ensures var b := Assign(sha, book, 'c', c.id);
      && Issued(b) && c.id in b.byFull
      && (c.id in conv ==> b == book)
      && AreBases(meta[c.id := c], b,
                  conv[c.id := if c.id in conv then OverwriteMeta(conv[c.id], c) else NewConversation(b.byFull[c.id], c)])
  {
    AssignKeeps(sha, book, 'c', c.id);
  }

  lemma BasesInsert(sha: Hash, meta: map<string, ConvMeta>, book: Book, conv: map<string, Conversation>, id: string)
    requires Issued(book) && AreBases(meta, book, conv) && id !in meta
    ensures var b := Assign(sha, book, 'c', id);
      && Issued(b) && id in b.byFull
      && AreBases(meta, b, conv[id := NewConversation(b.byFull[id], ConvMeta(id, None, None, None, 0))])
  {
    AssignKeeps(sha, book, 'c', id);
  }

  lemma FirstIdsStep(ids: seq<string>, id: string)
    ensures FirstIds(ids + [id]) == if id in Elems(ids) then FirstIds(ids) else FirstIds(ids) + [id]
    ensures Elems(ids + [id]) == Elems(ids) + {id}
  {
    TakeAppend(ids, id);
    FirstIdsElems(ids);
    assert id in FirstIds(ids) <==> id in Elems(FirstIds(ids));
    ElemsAppend(ids, [id]);
  }

  lemma StartBases(sha: Hash, b: Book, meta: map<string, ConvMeta>, metas: seq<ConvMeta>)
    ensures MetaOf(metas[..0]) == map[] && MetaIds(metas[..0]) == [] && FirstIds([]) == [] && Elems<string>([]) == {}
    ensures AreBases(meta, b, map[]) && Issued(EMPTY) && AssignAll(sha, b, 'c', []) == b
  {
  }

  lemma StartPeople(sha: Hash, rows: set<Message>, b: Book)
    ensures Names<Person>([]) == [] && AsMap<Person>([]) == map[] && ArePersons(rows, b, map[]) && Grows(b.byFull, b.byFull)
    ensures AssignAll(sha, b, 'p', []) == b
  {
  }

  lemma GrowsTransitive(a: map<string, string>, b: map<string, string>, c: map<string, string>)
    requires Grows(a, b) && Grows(b, c)
    ensures Grows(a, c)
  {
  }

  /** Conversation records in order: a handle at the first occurrence, the meta columns of the last. */
  method BaseConversations(metas: seq<ConvMeta>, handles: HandleAllocator) returns (order: seq<string>, conv: map<string,
                           Conversation>)
    requires handles.State() == EMPTY && forall c :: c in metas ==> c.id != ""
    modifies handles
    ensures handles.State() == AssignAll(handles.sha, EMPTY, 'c', MetaIds(metas)) && Issued(handles.State())
    ensures order == FirstIds(MetaIds(metas)) && conv.Keys == Elems(MetaIds(metas))
    ensures AreBases(MetaOf(metas), handles.State(), conv)
  {
    hide Issued, AreBases, MetaOf, MetaIds, FirstIds, Elems, AssignAll, Assign, ConvKind;
    StartBases(handles.sha, EMPTY, map[], metas);
    order, conv := [], map[];
    for i := 0 to |metas|
      invariant handles.State() == AssignAll(handles.sha, EMPTY, 'c', MetaIds(metas[..i])) && Issued(handles.State())
      invariant order == FirstIds(MetaIds(metas[..i])) && conv.Keys == Elems(MetaIds(metas[..i]))
      invariant AreBases(MetaOf(metas[..i]), handles.State(), conv)
    {
      var c := metas[i];
      MetaStep(metas, i);
      FirstIdsStep(MetaIds(metas[..i]), c.id);
      AssignAllStep(handles.sha, EMPTY, 'c', MetaIds(metas[..i]), c.id);
      BasesUpsert(handles.sha, MetaOf(metas[..i]), handles.State(), conv, c);
      if c.id in conv {
        conv := conv[c.id := OverwriteMeta(conv[c.id], c)];
      } else {
        var h := handles.HandleFor('c', c.id);
        order := order + [c.id];
        conv := conv[c.id := NewConversation(h, c)];
      }
    }
    assert metas[..|metas|] == metas;
  }

  /** Conversations that only messages mention, in id order. */
  method AddMissing(ghost meta: map<string, ConvMeta>, rows: set<Message>, order0: seq<string>, conv0: map<string,
                    Conversation>, handles: HandleAllocator)
    returns (order: seq<string>, conv: map<string, Conversation>)
    requires Issued(handles.State()) && meta.Keys == conv0.Keys && AreBases(meta, handles.State(), conv0)
    modifies handles
    ensures StrictTotal(TextLess)
    ensures var missing := OrderBy(TextLess, ConvIds(rows) - conv0.Keys);
      handles.State() == AssignAll(handles.sha, old(handles.State()), 'c', missing) && order == order0 + missing
    ensures Issued(handles.State()) && conv.Keys == conv0.Keys + ConvIds(rows)
    ensures AreBases(meta, handles.State(), conv)
  {
    hide Issued, AreBases, Elems, AssignAll, Assign, ConvKind, ConvIds, Lists, StrictTotal;
    StartAssign(handles.sha, handles.State(), 'c');
    TextOrder();
    var ids := ConvIds(rows) - conv0.Keys;
    var missing := OrderBy(TextLess, ids);
    ListsElems(TextLess, missing, ids);
    ListsNoDup(TextLess, missing, ids);
    ElemsAll(missing);
    order, conv := order0, conv0;
    for i := 0 to |missing|
      invariant handles.State() == AssignAll(handles.sha, old(handles.State()), 'c', missing[..i]) && Issued(handles.State())
      invariant order == order0 + missing[..i] && conv.Keys == conv0.Keys + Elems(missing[..i])
      invariant AreBases(meta, handles.State(), conv)
    {
      var id := missing[i];
      ElemsStep(missing, i);
      assert missing[..i + 1] == missing[..i] + [id];
      AssignAllStep(handles.sha, old(handles.State()), 'c', missing[..i], id);
      BasesInsert(handles.sha, meta, handles.State(), conv, id);
      var h := handles.HandleFor('c', id);
      order := order + [id];
      conv := conv[id := NewConversation(h, ConvMeta(id, None, None, None, 0))];
    }
    assert missing[..|missing|] == missing;
  }

  ghost predicate ArePersons(rows: set<Message>, book: Book, people: map<string, Person>) {
    forall mri :: mri in people ==> IsDerivedPerson(rows, book.byFull, mri, people[mri])
  }

  lemma PersonsInsert(sha: Hash, rows: set<Message>, book: Book, people: map<string, Person>, mri: string, a: PersonAcc)
    requires Issued(book) && ArePersons(rows, book, people) && IsPersonAcc(From(rows, mri), a)
    ensures var b := Assign(sha, book, 'p', mri);
      && Issued(b) && mri in b.byFull && Grows(book.byFull, b.byFull)
      && ArePersons(rows, b, people[mri := Person(b.byFull[mri], a.name, a.count, a.last)])
  {
    AssignKeeps(sha, book, 'p', mri);
    PersonAccName(From(rows, mri), a);
  }

  /** One person per accumulator, in id order. */
  method MakePeople(ghost rows: set<Message>, pstat: map<string, PersonAcc>,
                    handles: HandleAllocator) returns (people: seq<(string, Person)>)
    requires Issued(handles.State()) && ArePersonAccs(rows, pstat)
    modifies handles
    ensures StrictTotal(TextLess) && Names(people) == OrderBy(TextLess, Senders(rows))
    ensures handles.State() == AssignAll(handles.sha, old(handles.State()), 'p', Names(people)) && Issued(handles.State())
    ensures Grows(old(handles.handleByFull), handles.handleByFull)
    ensures AsMap(people).Keys == Senders(rows) && ArePersons(rows, handles.State(), AsMap(people))
  {
    hide Issued, ArePersons, Elems, AssignAll, Assign, Lists, StrictTotal, IsPersonAcc, From, Names, AsMap, Senders, Grows;
    StartPeople(handles.sha, rows, handles.State());
    TextOrder();
    var senders := OrderBy(TextLess, pstat.Keys);
    ListsElems(TextLess, senders, pstat.Keys);
    ElemsAll(senders);
    people := [];
    for i := 0 to |senders|
      invariant Names(people) == senders[..i] && AsMap(people).Keys == Elems(senders[..i])
      invariant handles.State() == AssignAll(handles.sha, old(handles.State()), 'p', senders[..i]) && Issued(handles.State())
      invariant Grows(old(handles.handleByFull), handles.handleByFull)
      invariant ArePersons(rows, handles.State(), AsMap(people))
    {
      var mri := senders[i];
      ElemsStep(senders, i);
      assert senders[..i + 1] == senders[..i] + [mri];
      AssignAllStep(handles.sha, old(handles.State()), 'p', senders[..i], mri);
      PersonsInsert(handles.sha, rows, handles.State(), AsMap(people), mri, pstat[mri]);
      GrowsTransitive(old(handles.handleByFull), handles.handleByFull, Assign(handles.sha, handles.State(), 'p', mri).byFull);
      var h := handles.HandleFor('p', mri);
      var p := Person(h, pstat[mri].name, pstat[mri].count, pstat[mri].last);
      AsMapSnoc(people, mri, p);
      people := people + [(mri, p)];
    }
    assert senders[..|senders|] == senders;
  }

  /** Top five of the participants by newest row there, then id; self and unnamed senders left out. */
  function TopNames(parts: map<string, int>, self: string, names: map<string, string>): Option<string>
    requires parts.Keys <= names.Keys
  {
    AheadOrder();
    var entries := set mri | mri in parts && mri != self && names[mri] != "" :: (mri, parts[mri]);
    var ranked := OrderBy(Ahead, entries);
    if ranked == [] then None
    else
      var top := ranked[..Min(5, |ranked|)];
      assert forall x :: x in top ==> x in entries;
      Some(Join(NamesOf(top, names)))
  }

  lemma TopNamesAre(rows: set<Message>, id: string, a: ConvAcc, self: string, names: map<string, string>)
    requires IsConvAcc(In(rows, id), a) && names.Keys == Senders(rows)
    ensures a.parts.Keys <= names.Keys
    ensures TopNames(a.parts, self, names) == ParticipantNames(rows, id, self, names)
  {
    var here := In(rows, id);
    forall mri | mri in a.parts
      ensures mri in names && a.parts[mri] == LastIn(rows, id, mri)
    {
      SenderHasRows(here, mri);
      MaxTsUnique(From(here, mri), a.parts[mri]);
      var m :| m in here && !m.isSystem && m.senderMri == mri;
      assert m in rows;
    }
    assert (set mri | mri in a.parts && mri != self && names[mri] != "" :: (mri, a.parts[mri]))
        == Standings(rows, id, self, names);
  }

  lemma NoParticipants(rows: set<Message>, id: string, self: string, names: map<string, string>)
    requires In(rows, id) == {}
    ensures ParticipantNames(rows, id, self, names) == None && Senders(In(rows, id)) == {}
  {
    AheadOrder();
    assert Standings(rows, id, self, names) == {};
    ListsEmpty(Ahead, OrderBy(Ahead, Standings(rows, id, self, names)), {});
  }

  /** One conversation row with its aggregates filled in. */
  function Finish(c: Conversation, agg: map<string, ConvAcc>, id: string, self: string, names: map<string, string>): Conversation
    requires id in agg ==> agg[id].parts.Keys <= names.Keys
  {
    if id in agg then
      var a := agg[id];
      c.(msgCount := a.count, activityTs := a.activity, participantCount := |a.parts|,
         lastTs := Max(c.metaLastTs, a.activity), participantNames := TopNames(a.parts, self, names))
    else
      c.(msgCount := 0, activityTs := 0, participantCount := 0, lastTs := Max(c.metaLastTs, 0))
  }

  lemma FinishIsDerived(rows: set<Message>, meta: map<string, ConvMeta>, book: Book, self: string, people: map<string, Person>,
                        agg: map<string, ConvAcc>, id: string, c: Conversation)
    requires IsBase(meta, book, id, c) && AreConvAccs(rows, agg) && people.Keys == Senders(rows)
    ensures id in agg ==> agg[id].parts.Keys <= people.Keys
    ensures IsDerivedConversation(rows, meta, book.byFull, self, people, id, Finish(c, agg, id, self, NamesOfPeople(people)))
  {
    ActiveHasRows(rows, id);
    if id in agg {
      TopNamesAre(rows, id, agg[id], self, NamesOfPeople(people));
      assert |agg[id].parts| == |agg[id].parts.Keys|;
    } else {
      NoParticipants(rows, id, self, NamesOfPeople(people));
    }
  }

  /** The whole derivation: rows, row order and handle book. */
  method DeriveTables(metas: seq<ConvMeta>, msgs: seq<Message>, self: Option<string>, sha: Hash)
    returns (people: seq<(string, Person)>, conversations: seq<(string, Conversation)>, handles: HandleAllocator)
    requires UniqueKeys(msgs) && forall c :: c in metas ==> c.id != ""
    ensures fresh(handles) && handles.sha == sha && handles.State() == BuildBook(sha, MetaIds(metas), Elems(msgs))
    ensures IsDerived(Elems(msgs), MetaOf(metas), handles.handleByFull, SelfText(self), AsMap(people), AsMap(conversations))
    ensures StrictTotal(TextLess) && Names(people) == OrderBy(TextLess, Senders(Elems(msgs)))
    ensures Names(conversations) == FirstIds(MetaIds(metas)) + OrderBy(TextLess, ConvIds(Elems(msgs)) - Elems(MetaIds(metas)))
  {
    hide IsDerivedPerson, IsDerivedConversation, AreBases, ConvIds, Senders, Elems, AreConvAccs, ArePersonAccs, Names, AsMap,
         MetaOf, MetaIds,
      FirstIds, AssignAll, OrderBy, Lists, Issued;
    handles := new HandleAllocator(sha);
    ghost var rows := Elems(msgs);
    MetaIdsKeys(metas);
    var order0, conv0 := BaseConversations(metas, handles);
    var order, conv := AddMissing(MetaOf(metas), Elems(msgs), order0, conv0, handles);
    OrderElems(MetaIds(metas), rows, order);
    ghost var convBook := handles.State();
    var pstat := CollectPeople(msgs);
    people := MakePeople(rows, pstat, handles);
    var agg := CollectConversations(msgs);
    BasesGrow(MetaOf(metas), convBook, handles.State(), conv);
    conversations := FinishAll(rows, MetaOf(metas), handles.State(), SelfText(self), AsMap(people), agg, order, conv);
    DerivedFromParts(rows, MetaOf(metas), handles.State(), SelfText(self), AsMap(people), AsMap(conversations));
  }

  lemma OrderElems(metaIds: seq<string>, rows: set<Message>, order: seq<string>)
    requires StrictTotal(TextLess)
    requires order == FirstIds(metaIds) + OrderBy(TextLess, ConvIds(rows) - Elems(metaIds))
    ensures Elems(order) == Elems(metaIds) + ConvIds(rows)
  {
    FirstIdsElems(metaIds);
    var missing := OrderBy(TextLess, ConvIds(rows) - Elems(metaIds));
    ListsElems(TextLess, missing, ConvIds(rows) - Elems(metaIds));
    ElemsAppend(FirstIds(metaIds), missing);
  }

  lemma BasesGrow(meta: map<string, ConvMeta>, book: Book, later: Book, conv: map<string, Conversation>)
    requires AreBases(meta, book, conv) && Grows(book.byFull, later.byFull)
    ensures AreBases(meta, later, conv)
  {
  }

  lemma DerivedFromParts(rows: set<Message>, meta: map<string, ConvMeta>, book: Book, self: string,
                         people: map<string, Person>, convs: map<string, Conversation>)
    requires people.Keys == Senders(rows) && ArePersons(rows, book, people)
    requires convs.Keys == meta.Keys + ConvIds(rows) && AreDerived(rows, meta, book, self, people, convs)
    ensures IsDerived(rows, meta, book.byFull, self, people, convs)
  {
  }

  ghost predicate AreDerived(rows: set<Message>, meta: map<string, ConvMeta>, book: Book, self: string,
                             people: map<string, Person>, convs: map<string, Conversation>) {
    forall id :: id in convs ==> IsDerivedConversation(rows, meta, book.byFull, self, people, id, convs[id])
  }

  method FinishAll(ghost rows: set<Message>, ghost meta: map<string, ConvMeta>, ghost book: Book, self: string,
                   people: map<string, Person>,
                   agg: map<string, ConvAcc>, order: seq<string>, conv: map<string, Conversation>)
    returns (conversations: seq<(string, Conversation)>)
    requires AreConvAccs(rows, agg) && people.Keys == Senders(rows) && Elems(order) == conv.Keys && AreBases(meta, book, conv)
    ensures Names(conversations) == order && AsMap(conversations).Keys == conv.Keys
    ensures AreDerived(rows, meta, book, self, people, AsMap(conversations))
  {
    hide IsDerivedConversation, IsBase, AreConvAccs, Finish, NoDup, Senders, AreDerived, Names, AsMap;
    conversations := [];
    NothingDerived(rows, meta, book, self, people);
    var names := NamesOfPeople(people);
    ElemsAll(order);
    for i := 0 to |order|
      invariant Names(conversations) == order[..i] && AsMap(conversations).Keys == Elems(order[..i])
      invariant AreDerived(rows, meta, book, self, people, AsMap(conversations))
    {
      var id := order[i];
      ElemsStep(order, i);
      assert order[..i + 1] == order[..i] + [id];
      FinishIsDerived(rows, meta, book, self, people, agg, id, conv[id]);
      var c := Finish(conv[id], agg, id, self, names);
      AsMapSnoc(conversations, id, c);
      DerivedStep(rows, meta, book, self, people, AsMap(conversations), id, c);
      conversations := conversations + [(id, c)];
    }
    assert order[..|order|] == order;
  }

  lemma NothingDerived(rows: set<Message>, meta: map<string, ConvMeta>, book: Book, self: string, people: map<string, Person>)
    ensures AreDerived(rows, meta, book, self, people, AsMap([])) && AsMap<Conversation>([]) == map[] && Names<Conversation>([]) == []
  {
  }

  lemma DerivedStep(rows: set<Message>, meta: map<string, ConvMeta>, book: Book, self: string, people: map<string, Person>,
                    convs: map<string, Conversation>, id: string, c: Conversation)
    requires AreDerived(rows, meta, book, self, people, convs) && IsDerivedConversation(rows, meta, book.byFull, self, people, id, c)
    ensures AreDerived(rows, meta, book, self, people, convs[id := c])
  {
    hide IsDerivedConversation;
  }
}
