/** The derived tables as the SQL recompute defines them: grouped counts, maxima, names and rankings
    over the set of message rows. */
module Recompute {
  import opened Base
  import opened Tables
  import opened Source
  import opened Sorting

  datatype Person = Person(handle: string, name: string, msgCount: nat, lastTs: int)

  datatype Conversation = Conversation(
    handle: string, kind: string, topic: Option<string>, teamId: Option<string>, threadType: Option<string>,
    metaLastTs: int, msgCount: nat, participantNames: Option<string>, participantCount: nat, activityTs: int, lastTs: int)

  // ---- groups and their aggregates ----

  /** Non-system rows of one sender. */
  function From(rows: set<Message>, mri: string): set<Message> {
    set m | m in rows && !m.isSystem && m.senderMri == mri
  }

  /** Non-system rows of one conversation. */
  function In(rows: set<Message>, convId: string): set<Message> {
    set m | m in rows && !m.isSystem && m.convId == convId
  }

  function Senders(rows: set<Message>): set<string> {
    set m | m in rows && !m.isSystem :: m.senderMri
  }

  function ConvIds(rows: set<Message>): set<string> {
    set m | m in rows :: m.convId
  }

  ghost predicate IsMaxTs(rows: set<Message>, t: int) {
    && (forall m :: m in rows ==> m.ts <= t)
    && (exists m :: m in rows && m.ts == t)
  }

  lemma {:induction false} MaxTsExists(rows: set<Message>)
    requires rows != {}
    ensures exists m :: m in rows && forall n :: n in rows ==> n.ts <= m.ts
    decreases |rows|
  {
    var a :| a in rows;
    var rest := rows - {a};
    if rest != {} {
      MaxTsExists(rest);
      var b :| b in rest && forall n :: n in rest ==> n.ts <= b.ts;
      var m := if a.ts < b.ts then b else a;
      assert m in rows && forall n :: n in rows ==> n == a || n in rest;
    } else {
      assert rows == {a} by {
        assert rows == rest + {a};
      }
    }
  }

  function MaxTs(rows: set<Message>): (t: int)
    requires rows != {}
    ensures IsMaxTs(rows, t)
  {
    MaxTsExists(rows);
    var t :| t in (set m | m in rows :: m.ts) && forall m | m in rows :: m.ts <= t;
    t
  }

  /** `(a.ts, a.id)` sorts after `(ts, id)`. */
  predicate After(a: Message, ts: int, id: string) {
    a.ts > ts || (a.ts == ts && TextLess(id, a.id))
  }

  /** The name of a most recent row; SQL leaves open which one when several share (ts, id). */
  ghost predicate IsLatestName(rows: set<Message>, name: string) {
    exists m :: m in rows && m.senderName == name && forall n :: n in rows ==> !After(n, m.ts, m.id)
  }

  /** Two rows of one sender with the same (ts, id) carry the same name. */
  ghost predicate NamesAgree(rows: set<Message>) {
    forall m, n :: m in rows && n in rows && !m.isSystem && !n.isSystem && m.senderMri == n.senderMri && m.ts == n.ts && m.id == n.id ==>
      m.senderName == n.senderName
  }

  /** Activity of a conversation: its newest non-system row, zero without any. */
  function Activity(rows: set<Message>, convId: string): int {
    if In(rows, convId) == {} then 0 else MaxTs(In(rows, convId))
  }

  // ---- participant ranking ----

  type Standing = (string, int)

  /** `order by mts desc, sender_mri`. */
  predicate Ahead(a: Standing, b: Standing) {
    a.1 > b.1 || (a.1 == b.1 && TextLess(a.0, b.0))
  }

  lemma AheadOrder()
    ensures StrictTotal(Ahead)
  {
    TextOrder();
    forall x: Standing, y: Standing ensures Ahead(x, y) || Ahead(y, x) || x == y {
      assert x == (x.0, x.1) && y == (y.0, y.1);
    }
  }

  /** The named senders of a conversation other than the user, each with its newest row there. */
  function Standings(rows: set<Message>, convId: string, self: string, names: map<string, string>): set<Standing> {
    set mri | mri in Senders(In(rows, convId)) && mri != self && mri in names && names[mri] != ""
      :: (mri, LastIn(rows, convId, mri))
  }

  function LastIn(rows: set<Message>, convId: string, mri: string): int {
    if From(In(rows, convId), mri) == {} then 0 else MaxTs(From(In(rows, convId), mri))
  }

  function Join(parts: seq<string>): string {
    if parts == [] then ""
    else if |parts| == 1 then parts[0]
    else Join(parts[..|parts| - 1]) + ", " + parts[|parts| - 1]
  }

  function NamesOf(top: seq<Standing>, names: map<string, string>): seq<string>
    requires forall x :: x in top ==> x.0 in names
  {
    if top == [] then []
    else
      assert forall x :: x in top[..|top| - 1] ==> x in top;
      NamesOf(top[..|top| - 1], names) + [names[top[|top| - 1].0]]
  }

  /** `group_concat(name, ', ')` over the five highest standings; null when there is none. */
  function ParticipantNames(rows: set<Message>, convId: string, self: string, names: map<string, string>): Option<string> {
    AheadOrder();
    var ranked := OrderBy(Ahead, Standings(rows, convId, self, names));
    if ranked == [] then None
    else
      var top := ranked[..Min(5, |ranked|)];
      assert forall x :: x in top ==> x in ranked;
      Some(Join(NamesOf(top, names)))
  }

  // ---- what the ranking shows, said of the rows ----

  /** `m` is a non-system row of the sender in the conversation. */
  predicate By(rows: set<Message>, convId: string, mri: string, m: Message) {
    m in rows && !m.isSystem && m.convId == convId && m.senderMri == mri
  }

  /** `a` has a row in the conversation newer than any of `b` there, or as new as the newest with `a` first in id order. */
  ghost predicate SpokeLater(rows: set<Message>, convId: string, a: string, b: string) {
    exists m :: By(rows, convId, a, m) && forall n :: By(rows, convId, b, n) ==> n.ts < m.ts || (n.ts == m.ts && Precedes(a, b))
  }

  /** A named sender of the conversation, not the user. */
  ghost predicate Candidate(rows: set<Message>, convId: string, self: string, names: map<string, string>, mri: string) {
    mri != self && mri in names && names[mri] != "" && exists m :: By(rows, convId, mri, m)
  }

  /** At most five candidates, fewer only when there are no more, those that spoke last, last first. */
  ghost predicate Shows(rows: set<Message>, convId: string, self: string, names: map<string, string>, shown: seq<string>) {
    && |shown| <= 5 && NoDup(shown)
    && (forall mri :: mri in shown ==> Candidate(rows, convId, self, names, mri))
    && (|shown| < 5 ==> forall mri :: Candidate(rows, convId, self, names, mri) ==> mri in shown)
    && (forall i, j :: 0 <= i < j < |shown| ==> SpokeLater(rows, convId, shown[i], shown[j]))
    && (forall a, b :: a in shown && b !in shown && Candidate(rows, convId, self, names, b) ==> SpokeLater(rows, convId, a, b))
  }

  /** Names one after another, each after a comma and a space. */
  function Trailing(shown: seq<string>, names: map<string, string>): string
    requires forall mri :: mri in shown ==> mri in names
  {
    if shown == [] then "" else ", " + names[shown[0]] + Trailing(shown[1..], names)
  }

  ghost predicate Spells(text: Option<string>, shown: seq<string>, names: map<string, string>) {
    && (forall mri :: mri in shown ==> mri in names)
    && text == if shown == [] then None else Some(names[shown[0]] + Trailing(shown[1..], names))
  }

  function Ids(top: seq<Standing>): (ids: seq<string>)
    ensures |ids| == |top|
  {
    seq(|top|, i requires 0 <= i < |top| => top[i].0)
  }

  lemma NewestIn(rows: set<Message>, convId: string, mri: string)
    requires exists m :: By(rows, convId, mri, m)
    ensures exists m :: By(rows, convId, mri, m) && m.ts == LastIn(rows, convId, mri)
    ensures forall m :: By(rows, convId, mri, m) ==> m.ts <= LastIn(rows, convId, mri)
  {
    var mine := From(In(rows, convId), mri);
    assert forall m :: m in mine <==> By(rows, convId, mri, m);
  }

  lemma IsStanding(rows: set<Message>, convId: string, self: string, names: map<string, string>, mri: string, ts: int)
    ensures (mri, ts) in Standings(rows, convId, self, names) <==>
      Candidate(rows, convId, self, names, mri) && ts == LastIn(rows, convId, mri)
  {
    var here := In(rows, convId);
    if m :| By(rows, convId, mri, m) {
      assert m in here;
    }
    if mri in Senders(here) {
      var m :| m in here && !m.isSystem && m.senderMri == mri;
      assert By(rows, convId, mri, m);
    }
  }

  lemma AheadSpokeLater(rows: set<Message>, convId: string, a: string, b: string)
    requires exists m :: By(rows, convId, a, m)
    requires exists m :: By(rows, convId, b, m)
    requires Ahead((a, LastIn(rows, convId, a)), (b, LastIn(rows, convId, b)))
    ensures SpokeLater(rows, convId, a, b)
  {
    NewestIn(rows, convId, a);
    NewestIn(rows, convId, b);
    TextLessIsDictionary(a, b);
    var m :| By(rows, convId, a, m) && m.ts == LastIn(rows, convId, a);
    assert forall n :: By(rows, convId, b, n) ==> n.ts < m.ts || (n.ts == m.ts && Precedes(a, b));
  }

  /** The first five of the ranking are shown. */
  lemma TopShows(rows: set<Message>, convId: string, self: string, names: map<string, string>, ranked: seq<Standing>)
    requires Lists(Ahead, ranked, Standings(rows, convId, self, names))
    ensures Shows(rows, convId, self, names, Ids(ranked[..Min(5, |ranked|)]))
  {
    hide Ahead, SpokeLater, Candidate, Standings, LastIn, By;
    var n := Min(5, |ranked|);
    var shown := Ids(ranked[..n]);
    forall i | 0 <= i < |ranked|
      ensures Candidate(rows, convId, self, names, ranked[i].0) && ranked[i].1 == LastIn(rows, convId, ranked[i].0)
    {
      assert ranked[i] in ranked && ranked[i] == (ranked[i].0, ranked[i].1);
      IsStanding(rows, convId, self, names, ranked[i].0, ranked[i].1);
    }
    forall i, j | 0 <= i < j < |ranked|
      ensures ranked[i].0 != ranked[j].0 && SpokeLater(rows, convId, ranked[i].0, ranked[j].0)
    {
      RankedLater(rows, convId, self, names, ranked[i], ranked[j]);
    }
    forall mri | Candidate(rows, convId, self, names, mri)
      ensures exists i :: 0 <= i < |ranked| && ranked[i].0 == mri
    {
      IsStanding(rows, convId, self, names, mri, LastIn(rows, convId, mri));
      var i :| 0 <= i < |ranked| && ranked[i] == (mri, LastIn(rows, convId, mri));
    }
    forall mri | |shown| < 5 && Candidate(rows, convId, self, names, mri)
      ensures mri in shown
    {
      var i :| 0 <= i < |ranked| && ranked[i].0 == mri;
      assert shown[i] == mri;
    }
    forall i | 0 <= i < n
      ensures ranked[i].0 in shown
    {
      assert shown[i] == ranked[i].0;
    }
    forall a, b | a in shown && b !in shown && Candidate(rows, convId, self, names, b)
      ensures SpokeLater(rows, convId, a, b)
    {
      var i :| 0 <= i < n && shown[i] == a;
      var j :| 0 <= j < |ranked| && ranked[j].0 == b;
    }
  }

  lemma RankedLater(rows: set<Message>, convId: string, self: string, names: map<string, string>, a: Standing, b: Standing)
    requires Candidate(rows, convId, self, names, a.0) && a.1 == LastIn(rows, convId, a.0)
    requires Candidate(rows, convId, self, names, b.0) && b.1 == LastIn(rows, convId, b.0)
    requires Ahead(a, b)
    ensures a.0 != b.0 && SpokeLater(rows, convId, a.0, b.0)
  {
    AheadOrder();
    assert a == (a.0, a.1) && b == (b.0, b.1);
    assert a != b;
    AheadSpokeLater(rows, convId, a.0, b.0);
  }

  lemma JoinSnoc(parts: seq<string>, last: string)
    requires parts != []
    ensures Join(parts + [last]) == Join(parts) + ", " + last
  {
    TakeAppend(parts, last);
  }

  lemma TopSnoc(top: seq<Standing>, names: map<string, string>)
    requires top != [] && forall x :: x in top ==> x.0 in names
    ensures var n := |top| - 1;
      && (forall x :: x in top[..n] ==> x.0 in names) && NamesOf(top, names) == NamesOf(top[..n], names) + [names[top[n].0]]
      && Ids(top[..n]) == Ids(top)[..n]
    ensures forall mri :: mri in Ids(top) ==> mri in names
  {
    assert forall i :: 0 <= i < |top| ==> top[i] in top;
  }

  lemma {:induction false} JoinNames(top: seq<Standing>, names: map<string, string>)
    requires top != [] && forall x :: x in top ==> x.0 in names
    ensures forall mri :: mri in Ids(top) ==> mri in names
    ensures Join(NamesOf(top, names)) == names[Ids(top)[0]] + Trailing(Ids(top)[1..], names)
  {
    hide Join, NamesOf, Trailing;
    var n, ids := |top| - 1, Ids(top);
    TopSnoc(top, names);
    if n > 0 {
      JoinNames(top[..n], names);
      NamesCount(top[..n], names);
      JoinSnoc(NamesOf(top[..n], names), names[top[n].0]);
      TrailingSnoc(ids[1..n], ids[n], names);
      assert ids[..n][1..] == ids[1..n];
      assert ids[1..] == ids[1..n] + [ids[n]];
    } else {
      OneName(top, names);
    }
  }

  lemma OneName(top: seq<Standing>, names: map<string, string>)
    requires |top| == 1 && top[0].0 in names
    ensures Join(NamesOf(top, names)) == names[top[0].0] && Trailing(Ids(top)[1..], names) == ""
  {
    assert top[..0] == [];
    assert NamesOf(top, names) == [names[top[0].0]];
  }

  lemma {:induction false} NamesCount(top: seq<Standing>, names: map<string, string>)
    requires forall x :: x in top ==> x.0 in names
    ensures |NamesOf(top, names)| == |top|
  {
    if top != [] {
      assert forall x :: x in top[..|top| - 1] ==> x in top;
      NamesCount(top[..|top| - 1], names);
    }
  }

  lemma {:induction false} TrailingSnoc(shown: seq<string>, mri: string, names: map<string, string>)
    requires mri in names && forall x :: x in shown ==> x in names
    ensures Trailing(shown + [mri], names) == Trailing(shown, names) + ", " + names[mri]
  {
    if shown == [] {
      assert ([mri])[1..] == [] && shown + [mri] == [mri];
    } else {
      TrailingSnoc(shown[1..], mri, names);
      assert (shown + [mri])[1..] == shown[1..] + [mri];
    }
  }

  /** Main result: the participants text names the up to five named senders, the user left out, that spoke last in the conversation, the
      last one first, ids deciding ties. */
  lemma ParticipantsShown(rows: set<Message>, convId: string, self: string, names: map<string, string>)
    ensures exists shown :: Shows(rows, convId, self, names, shown) && Spells(ParticipantNames(rows, convId, self, names), shown, names)
  {
    hide Shows, Ahead, Standings, Join, NamesOf, Trailing;
    AheadOrder();
    var ranked := OrderBy(Ahead, Standings(rows, convId, self, names));
    TopShows(rows, convId, self, names, ranked);
    var top := ranked[..Min(5, |ranked|)];
    ShownNamed(rows, convId, self, names, Ids(top));
    if top != [] {
      assert forall x :: x in top ==> x in ranked;
      TopNamed(top, names);
      JoinNames(top, names);
    }
  }

  lemma TopNamed(top: seq<Standing>, names: map<string, string>)
    requires forall mri :: mri in Ids(top) ==> mri in names
    ensures forall x :: x in top ==> x.0 in names
  {
    forall x | x in top
      ensures x.0 in names
    {
      var i :| 0 <= i < |top| && top[i] == x;
      assert Ids(top)[i] == x.0;
    }
  }

  lemma ShownNamed(rows: set<Message>, convId: string, self: string, names: map<string, string>, shown: seq<string>)
    requires Shows(rows, convId, self, names, shown)
    ensures forall mri :: mri in shown ==> mri in names
  {
  }

  /** The latest name is that of a row with no newer one, ids deciding ties. */
  lemma LatestName(rows: set<Message>, name: string)
    ensures IsLatestName(rows, name) <==>
      exists m :: m in rows && m.senderName == name && forall n :: n in rows ==> n.ts < m.ts || (n.ts == m.ts && !Precedes(m.id, n.id))
  {
    forall m, n | m in rows && n in rows
      ensures !After(n, m.ts, m.id) <==> n.ts < m.ts || (n.ts == m.ts && !Precedes(m.id, n.id))
    {
      TextLessIsDictionary(m.id, n.id);
    }
  }

  // ---- the derived tables ----

  function NamesOfPeople(people: map<string, Person>): map<string, string> {
    map mri | mri in people :: people[mri].name
  }

  ghost predicate IsPerson(rows: set<Message>, book: map<string, string>, mri: string, p: Person) {
    var mine := From(rows, mri);
    && mri in book && p.handle == book[mri]
    && IsLatestName(mine, p.name)
    && p.msgCount == |mine|
    && IsMaxTs(mine, p.lastTs)
  }

  lemma PersonStays(rows: set<Message>, book: map<string, string>, later: map<string, string>, mri: string, p: Person)
    requires IsPerson(rows, book, mri, p) && forall x :: x in book ==> x in later && later[x] == book[x]
    ensures IsPerson(rows, later, mri, p)
  {
  }

  ghost predicate IsPeople(rows: set<Message>, book: map<string, string>, people: map<string, Person>) {
    && people.Keys == Senders(rows)
    && forall mri :: mri in people ==> IsPerson(rows, book, mri, people[mri])
  }

  /** The meta columns of a conversation row: those of its last conversation record, null without one. */
  ghost predicate HasMeta(meta: map<string, ConvMeta>, id: string, c: Conversation) {
    if id in meta then
      c.topic == meta[id].topic && c.teamId == meta[id].teamId && c.threadType == meta[id].threadType && c.metaLastTs == meta[id].metaLastTs
    else
      c.topic == None && c.teamId == None && c.threadType == None && c.metaLastTs == 0
  }

  ghost predicate IsConversation(rows: set<Message>, meta: map<string, ConvMeta>, book: map<string, string>, self: string,
                                 people: map<string, Person>, id: string, c: Conversation) {
    && id in book && c.handle == book[id]
    && c.kind == ConvKind(id)
    && HasMeta(meta, id, c)
    && c.msgCount == |In(rows, id)|
    && c.participantCount == |Senders(In(rows, id))|
    && c.activityTs == Activity(rows, id)
    && c.lastTs == Max(c.metaLastTs, Activity(rows, id))
    && c.participantNames == ParticipantNames(rows, id, self, NamesOfPeople(people))
  }

  ghost predicate IsConversations(rows: set<Message>, meta: map<string, ConvMeta>, book: map<string, string>, self: string,
                                  people: map<string, Person>, convs: map<string, Conversation>) {
    && convs.Keys == meta.Keys + ConvIds(rows)
    && forall id :: id in convs ==> IsConversation(rows, meta, book, self, people, id, convs[id])
  }

  lemma DerivedKeys(rows: set<Message>, meta: map<string, ConvMeta>, book: map<string, string>, self: string,
                    people: map<string, Person>, convs: map<string, Conversation>)
    requires IsPeople(rows, book, people) && IsConversations(rows, meta, book, self, people, convs)
    ensures people.Keys == Senders(rows) && convs.Keys == meta.Keys + ConvIds(rows)
  {
  }

  lemma LatestNameUnique(rows: set<Message>, mri: string, a: string, b: string)
    requires NamesAgree(rows) && IsLatestName(From(rows, mri), a) && IsLatestName(From(rows, mri), b)
    ensures a == b
  {
    var mine := From(rows, mri);
    var m :| m in mine && m.senderName == a && forall n :: n in mine ==> !After(n, m.ts, m.id);
    var n :| n in mine && n.senderName == b && forall x :: x in mine ==> !After(x, n.ts, n.id);
    TextTotal(m.id, n.id);
  }

  lemma PersonUnique(rows: set<Message>, book: map<string, string>, mri: string, p: Person, q: Person)
    requires NamesAgree(rows) && IsPerson(rows, book, mri, p) && IsPerson(rows, book, mri, q)
    ensures p == q
  {
    LatestNameUnique(rows, mri, p.name, q.name);
  }

  lemma ConversationUnique(rows: set<Message>, meta: map<string, ConvMeta>, book: map<string, string>, self: string,
                           people: map<string, Person>, id: string, c: Conversation, d: Conversation)
    requires IsConversation(rows, meta, book, self, people, id, c) && IsConversation(rows, meta, book, self, people, id, d)
    ensures c == d
  {
  }

  lemma PeopleUnique(rows: set<Message>, book: map<string, string>, p1: map<string, Person>, p2: map<string, Person>)
    requires NamesAgree(rows) && IsPeople(rows, book, p1) && IsPeople(rows, book, p2)
    ensures p1 == p2
  {
    hide IsPerson, NamesAgree;
    forall mri | mri in Senders(rows)
      ensures p1[mri] == p2[mri]
    {
      PersonUnique(rows, book, mri, p1[mri], p2[mri]);
    }
  }

  lemma ConversationsUnique(rows: set<Message>, meta: map<string, ConvMeta>, book: map<string, string>, self: string,
                            people: map<string, Person>, c1: map<string, Conversation>, c2: map<string, Conversation>)
    requires IsConversations(rows, meta, book, self, people, c1) && IsConversations(rows, meta, book, self, people, c2)
    ensures c1 == c2
  {
    forall id | id in meta.Keys + ConvIds(rows)
      ensures c1[id] == c2[id]
    {
      ConversationUnique(rows, meta, book, self, people, id, c1[id], c2[id]);
    }
  }

  /** The derived tables are a function of the message rows, the meta rows, the handles and the user. */
  lemma DerivedUnique(rows: set<Message>, meta: map<string, ConvMeta>, book: map<string, string>, self: string,
                      p1: map<string, Person>, c1: map<string, Conversation>, p2: map<string, Person>, c2: map<string, Conversation>)
    requires NamesAgree(rows)
    requires IsPeople(rows, book, p1) && IsConversations(rows, meta, book, self, p1, c1)
    requires IsPeople(rows, book, p2) && IsConversations(rows, meta, book, self, p2, c2)
    ensures p1 == p2 && c1 == c2
  {
    PeopleUnique(rows, book, p1, p2);
    ConversationsUnique(rows, meta, book, self, p1, c1, c2);
  }

  // ---- adding one row to a group ----

  lemma FromAdd(rows: set<Message>, m: Message, mri: string)
    ensures From(rows + {m}, mri) == From(rows, mri) + (if !m.isSystem && m.senderMri == mri then {m} else {})
  {
  }

  lemma InAdd(rows: set<Message>, m: Message, convId: string)
    ensures In(rows + {m}, convId) == In(rows, convId) + (if !m.isSystem && m.convId == convId then {m} else {})
  {
  }

  lemma MaxTsUnique(rows: set<Message>, t: int)
    requires IsMaxTs(rows, t)
    ensures rows != {} && MaxTs(rows) == t
  {
  }

  lemma MaxTsAdd(rows: set<Message>, m: Message)
    ensures MaxTs(rows + {m}) == if rows == {} then m.ts else Max(MaxTs(rows), m.ts)
  {
    var t := if rows == {} then m.ts else Max(MaxTs(rows), m.ts);
    if rows != {} {
      var w :| w in rows && w.ts == MaxTs(rows);
      assert w in rows + {m};
    }
    assert m in rows + {m};
    MaxTsUnique(rows + {m}, t);
  }
}
