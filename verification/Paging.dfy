/** Keyset paging through a conversation: newest page first, each page oldest to newest, a cursor for the page before. */
module Paging {
  import opened Base
  import opened Tables
  import opened Sorting
  import opened MessageFold
  import ChatStores
  import Decimal

  /** A row's place in a conversation: its timestamp and its id, which is unique there. */
  type Mark = (int, string)

  predicate Earlier(a: Mark, b: Mark) {
    a.0 < b.0 || (a.0 == b.0 && TextLess(a.1, b.1))
  }

  /** `order by ts desc, id desc`. */
  predicate Later(a: Mark, b: Mark) {
    Earlier(b, a)
  }

  lemma MarkOrder()
    ensures StrictTotal(Earlier) && StrictTotal(Later)
  {
    TextOrder();
    forall x: Mark, y: Mark
      ensures Earlier(x, y) || Earlier(y, x) || x == y
    {
      assert x == (x.0, x.1) && y == (y.0, y.1);
    }
  }

  /** A bound of zero counts as absent. */
  predicate Truthy(bound: Option<int>) {
    bound.Some? && bound.value != 0
  }

  /** The non-system rows of a conversation inside the time window. */
  function Window(rows: set<Message>, convId: string, sinceTs: Option<int>, untilTs: Option<int>): set<Message> {
    set m | m in rows && m.convId == convId && !m.isSystem
      && (Truthy(sinceTs) ==> m.ts >= sinceTs.value) && (Truthy(untilTs) ==> m.ts < untilTs.value)
  }

  function MarkOf(m: Message): Mark { (m.ts, m.id) }

  function Marks(rows: set<Message>): set<Mark> {
    set m | m in rows :: MarkOf(m)
  }

  function MarkList(rows: seq<Message>): (r: seq<Mark>)
    ensures |r| == |rows| && forall i :: 0 <= i < |r| ==> r[i] == MarkOf(rows[i])
  {
    seq(|rows|, i requires 0 <= i < |rows| => MarkOf(rows[i]))
  }

  /** The table's primary key. */
  ghost predicate Keyed(rows: set<Message>) {
    forall m, n :: m in rows && n in rows && KeyOf(m) == KeyOf(n) ==> m == n
  }

  /** The rows of a store are keyed. */
  lemma StoreIsKeyed(table: seq<Message>)
    requires UniqueKeys(table)
    ensures Keyed(Elems(table))
  {
    forall m, n | m in Elems(table) && n in Elems(table) && KeyOf(m) == KeyOf(n)
      ensures m == n
    {
      var i :| 0 <= i < |table| && table[i] == m;
      var j :| 0 <= j < |table| && table[j] == n;
    }
  }

  /** Within a window a mark belongs to one row, so paging by marks can neither skip nor repeat one. */
  lemma MarksTellRows(rows: set<Message>, convId: string, sinceTs: Option<int>, untilTs: Option<int>, m: Message, n: Message)
    requires Keyed(rows) && m in Window(rows, convId, sinceTs, untilTs) && n in Window(rows, convId, sinceTs, untilTs)
    ensures MarkOf(m) == MarkOf(n) ==> m == n
  {
    assert MarkOf(m) == MarkOf(n) ==> KeyOf(m) == KeyOf(n);
  }

  // ---- cursors ----

  function CursorOf(m: Mark): string {
    "older:" + Decimal.IntText(m.0) + ":" + m.1
  }

  predicate LineEnd(c: char) {
    c == '\n' || c == '\r' || c == '\U{2028}' || c == '\U{2029}'
  }

  function DigitRun(s: string): (k: nat)
    ensures k <= |s| && Decimal.AllDigits(s[..k]) && (k < |s| ==> !Decimal.IsDigit(s[k]))
  {
    if s == "" || !Decimal.IsDigit(s[0]) then 0
    else
      var k := DigitRun(s[1..]);
      assert s[..k + 1] == [s[0]] + s[1..][..k];
      k + 1
  }

  /** `^older:(\d+):(.+)$`; a cursor that does not match is ignored. */
  function ParseCursor(s: string): Option<Mark> {
    if !("older:" <= s) then None
    else
      var rest := s[6..];
      var k := DigitRun(rest);
      if k == 0 || k >= |rest| || rest[k] != ':' then None
      else
        var id := rest[k + 1..];
        if id == "" || exists c | c in id :: LineEnd(c) then None else Some((Decimal.Value(rest[..k]), id))
  }

  /** What the cursor syntax can carry. */
  predicate Readable(m: Mark) {
    m.0 >= 0 && m.1 != "" && forall c | c in m.1 :: !LineEnd(c)
  }

  lemma {:induction false} DigitRunStops(d: string, rest: string)
    requires Decimal.AllDigits(d) && (rest == "" || !Decimal.IsDigit(rest[0]))
    ensures DigitRun(d + rest) == |d|
  {
    if d == "" {
      assert d + rest == rest;
    } else {
      assert d[0] in d;
      assert forall c | c in d[1..] :: c in d;
      assert (d + rest)[1..] == d[1..] + rest;
      DigitRunStops(d[1..], rest);
    }
  }

  /** A cursor reads back as its row exactly when the timestamp is not negative and the id is one non-empty line; otherwise it is
      no cursor at all. */
  lemma CursorRoundTrip(m: Mark)
    ensures ParseCursor(CursorOf(m)) == if Readable(m) then Some(m) else None
  {
    var s := CursorOf(m);
    var rest := Decimal.IntText(m.0) + (":" + m.1);
    assert s == "older:" + rest;
    assert s[6..] == rest;
    if m.0 >= 0 {
      var d := Decimal.Digits(m.0);
      Decimal.DigitsRoundTrip(m.0);
      DigitRunStops(d, ":" + m.1);
      assert rest[..|d|] == d && rest[|d|] == ':' && rest[|d| + 1..] == m.1;
    } else {
      assert rest[0] == '-';
    }
  }

  /** A cursor text: the word, a numeral and one non-empty line. */
  ghost predicate Cites(s: string, d: string, id: string) {
    s == "older:" + d + ":" + id && d != "" && Decimal.AllDigits(d) && id != ""
    && '\n' !in id && '\r' !in id && '\U{2028}' !in id && '\U{2029}' !in id
  }

  lemma CitedParses(s: string, d: string, id: string)
    requires Cites(s, d, id)
    ensures ParseCursor(s) == Some((Decimal.Value(d), id))
  {
    hide DigitRun, Decimal.Value;
    var rest := d + (":" + id);
    assert s == "older:" + rest && s[6..] == rest;
    DigitRunStops(d, ":" + id);
    assert rest[..|d|] == d && rest[|d|] == ':' && rest[|d| + 1..] == id;
  }

  lemma ParsedCites(s: string)
    requires ParseCursor(s).Some?
    ensures exists d :: Cites(s, d, ParseCursor(s).value.1) && Decimal.Value(d) == ParseCursor(s).value.0
  {
    hide DigitRun, Decimal.Value;
    var rest, id := s[6..], ParseCursor(s).value.1;
    var d := rest[..DigitRun(rest)];
    assert rest == d + ":" + id;
    assert s == "older:" + d + ":" + id;
    assert Cites(s, d, id);
  }

  /** A text is read as a cursor exactly when it is one, and then as the number and the line in it. */
  lemma CursorSyntax(s: string, ts: nat, id: string)
    ensures ParseCursor(s) == Some((ts, id)) <==> exists d :: Cites(s, d, id) && Decimal.Value(d) == ts
  {
    hide ParseCursor, Decimal.Value;
    if d :| Cites(s, d, id) && Decimal.Value(d) == ts {
      CitedParses(s, d, id);
    }
    if ParseCursor(s).Some? {
      ParsedCites(s);
    }
  }

  // ---- one page ----

  function Before(marks: set<Mark>, cursor: Option<string>): set<Mark> {
    if cursor.Some? && ParseCursor(cursor.value).Some? then set m | m in marks && Earlier(m, ParseCursor(cursor.value).value) else marks
  }

  function LastOf<T>(s: seq<T>, n: nat): seq<T> {
    if n >= |s| then s else s[|s| - n..]
  }

  /** The last `limit` rows before the cursor, oldest to newest. */
  ghost function Page(marks: set<Mark>, cursor: Option<string>, limit: nat): seq<Mark> {
    MarkOrder();
    LastOf(OrderBy(Earlier, Before(marks, cursor)), limit)
  }

  function Reverse<T>(s: seq<T>): (r: seq<T>)
    ensures |r| == |s| && forall i :: 0 <= i < |s| ==> r[i] == s[|s| - 1 - i]
  {
    seq(|s|, i requires 0 <= i < |s| => s[|s| - 1 - i])
  }

  lemma ReverseLists(s: seq<Mark>, xs: set<Mark>)
    requires Lists(Later, s, xs)
    ensures Lists(Earlier, Reverse(s), xs)
  {
    var r := Reverse(s);
    forall x
      ensures x in r <==> x in xs
    {
      if x in s {
        var i :| 0 <= i < |s| && s[i] == x;
        assert r[|s| - 1 - i] == x;
      }
      if x in r {
        var i :| 0 <= i < |r| && r[i] == x;
        assert s[|s| - 1 - i] == x;
      }
    }
  }

  /** Sort newest first, take `limit`, reverse. */
  method LastMarks(marks: set<Mark>, cursor: Option<string>, limit: nat) returns (page: seq<Mark>)
    ensures page == Page(marks, cursor, limit) && forall m :: m in page ==> m in marks
  {
    hide StrictTotal, Lists, Earlier, OrderBy, Reverse, LastOf;
    MarkOrder();
    var older := Before(marks, cursor);
    var desc := OrderBy(Later, older);
    page := Reverse(desc[..Min(limit, |desc|)]);
    ReverseLists(desc, older);
    ListsUnique(Earlier, Reverse(desc), OrderBy(Earlier, older), older);
    ReverseTake(desc, limit);
    PageIsPart(marks, cursor, limit);
  }

  lemma PageIsPart(marks: set<Mark>, cursor: Option<string>, limit: nat)
    ensures forall m :: m in Page(marks, cursor, limit) ==> m in marks
  {
    hide Earlier, ParseCursor;
    MarkOrder();
    var all := OrderBy(Earlier, Before(marks, cursor));
    forall m | m in LastOf(all, limit)
      ensures m in marks
    {
      assert m in all;
    }
  }

  // ---- what a page is, said of the rows ----

  /** `a` is newer than `b`: later, or at the same time with the greater id. */
  ghost predicate Newer(a: Message, b: Message) {
    a.ts > b.ts || (a.ts == b.ts && Precedes(b.id, a.id))
  }

  /** A row of the conversation inside the bounds, a bound of zero being none, and before the cursor, if that can be read. */
  ghost predicate Wanted(m: Message, convId: string, sinceTs: Option<int>, untilTs: Option<int>, cursor: Option<string>) {
    && m.convId == convId && !m.isSystem
    && (sinceTs == None || sinceTs == Some(0) || m.ts >= sinceTs.value)
    && (untilTs == None || untilTs == Some(0) || m.ts < untilTs.value)
    && (cursor == None || ParseCursor(cursor.value) == None
        || m.ts < ParseCursor(cursor.value).value.0
        || (m.ts == ParseCursor(cursor.value).value.0 && Precedes(m.id, ParseCursor(cursor.value).value.1)))
  }

  /** The newest wanted rows, at most `limit` of them and fewer only when there are no more, oldest first. */
  ghost predicate IsPage(rows: set<Message>, convId: string, sinceTs: Option<int>, untilTs: Option<int>, cursor: Option<string>,
                         limit: nat, page: seq<Message>) {
    && |page| <= limit
    && (forall m :: m in page ==> m in rows && Wanted(m, convId, sinceTs, untilTs, cursor))
    && (forall i, j :: 0 <= i < j < |page| ==> Newer(page[j], page[i]))
    && (forall m, p :: m in rows && Wanted(m, convId, sinceTs, untilTs, cursor) && m !in page && p in page ==> Newer(p, m))
    && (|page| < limit ==> forall m :: m in rows && Wanted(m, convId, sinceTs, untilTs, cursor) ==> m in page)
  }

  lemma WantedMark(rows: set<Message>, convId: string, sinceTs: Option<int>, untilTs: Option<int>, cursor: Option<string>, m: Message)
    ensures m in Window(rows, convId, sinceTs, untilTs) && MarkOf(m) in Before(Marks(Window(rows, convId, sinceTs, untilTs)), cursor)
      <==> m in rows && Wanted(m, convId, sinceTs, untilTs, cursor)
  {
    if cursor.Some? && ParseCursor(cursor.value).Some? {
      TextLessIsDictionary(m.id, ParseCursor(cursor.value).value.1);
    }
  }

  lemma EarlierIsOlder(a: Message, b: Message)
    ensures Earlier(MarkOf(a), MarkOf(b)) <==> Newer(b, a)
  {
    TextLessIsDictionary(a.id, b.id);
  }

  lemma Inside(s: seq<Mark>, k: nat, i: nat, last: seq<Mark>)
    requires k <= |s| && last == s[k..] && i < |s|
    ensures i >= k ==> s[i] in last
  {
    if i >= k {
      assert last[i - k] == s[i];
    }
  }

  /** The last `n` of a sorted list: sorted, and everything left out comes before them. */
  lemma LastOfSorted(s: seq<Mark>, xs: set<Mark>, n: nat)
    requires Lists(Earlier, s, xs)
    ensures var last := LastOf(s, n);
      && |last| == Min(n, |s|) && Ascending(Earlier, last) && (forall x :: x in last ==> x in xs)
      && (forall x, y :: x in xs && x !in last && y in last ==> Earlier(x, y)) && (|s| <= n ==> forall x :: x in xs ==> x in last)
  {
    hide Earlier;
    var last := LastOf(s, n);
    var k := |s| - |last|;
    assert forall j :: 0 <= j < |last| ==> last[j] == s[k + j];
    forall x, y | x in xs && x !in last && y in last
      ensures Earlier(x, y)
    {
      var i :| 0 <= i < |s| && s[i] == x;
      var j :| 0 <= j < |last| && last[j] == y;
      Inside(s, k, i, last);
    }
  }

  lemma PageIs(rows: set<Message>, convId: string, sinceTs: Option<int>, untilTs: Option<int>, cursor: Option<string>, limit: nat,
               page: seq<Message>)
    requires Keyed(rows) && Fetched(rows, convId, sinceTs, untilTs, cursor, limit, page)
    ensures IsPage(rows, convId, sinceTs, untilTs, cursor, limit, page)
  {
    hide Earlier, Newer, Wanted, Before, LastOf, Keyed, Window, OrderBy, StrictTotal;
    MarkOrder();
    var window := Window(rows, convId, sinceTs, untilTs);
    var older := Before(Marks(window), cursor);
    var all, marks := OrderBy(Earlier, older), MarkList(page);
    LastOfSorted(all, older, limit);
    forall i | 0 <= i < |page|
      ensures page[i] in rows && Wanted(page[i], convId, sinceTs, untilTs, cursor)
    {
      assert marks[i] in marks && page[i] in page;
      WantedMark(rows, convId, sinceTs, untilTs, cursor, page[i]);
    }
    forall i, j | 0 <= i < j < |page|
      ensures Newer(page[j], page[i])
    {
      EarlierIsOlder(page[i], page[j]);
    }
    forall m | m in rows && Wanted(m, convId, sinceTs, untilTs, cursor)
      ensures m in window && MarkOf(m) in older && (m in page <==> MarkOf(m) in marks)
    {
      WantedMark(rows, convId, sinceTs, untilTs, cursor, m);
      OnPage(rows, convId, sinceTs, untilTs, page, m);
    }
    forall m, p | m in rows && Wanted(m, convId, sinceTs, untilTs, cursor) && m !in page && p in page
      ensures Newer(p, m)
    {
      EarlierIsOlder(m, p);
      var i :| 0 <= i < |page| && page[i] == p;
      assert marks[i] in marks;
    }
  }

  /** A row of the window is on a page when its mark is. */
  lemma OnPage(rows: set<Message>, convId: string, sinceTs: Option<int>, untilTs: Option<int>, page: seq<Message>, m: Message)
    requires Keyed(rows) && m in Window(rows, convId, sinceTs, untilTs)
    requires forall p :: p in page ==> p in Window(rows, convId, sinceTs, untilTs)
    ensures m in page <==> MarkOf(m) in MarkList(page)
  {
    hide Keyed, Window;
    if m in page {
      var i :| 0 <= i < |page| && page[i] == m;
      assert MarkList(page)[i] == MarkOf(m);
    }
    if MarkOf(m) in MarkList(page) {
      var i :| 0 <= i < |page| && MarkList(page)[i] == MarkOf(m);
      MarksTellRows(rows, convId, sinceTs, untilTs, m, page[i]);
    }
  }

  ghost predicate Fetched(rows: set<Message>, convId: string, sinceTs: Option<int>, untilTs: Option<int>, cursor: Option<string>,
                          limit: nat, page: seq<Message>) {
    && MarkList(page) == Page(Marks(Window(rows, convId, sinceTs, untilTs)), cursor, limit)
    && forall m :: m in page ==> m in Window(rows, convId, sinceTs, untilTs)
  }

  /** One page of a conversation: the last `limit` rows of the window before the cursor, oldest to newest. */
  method QueryPage(rows: set<Message>, convId: string, sinceTs: Option<int>, untilTs: Option<int>, cursor: Option<string>,
                   limit: nat)
    returns (page: seq<Message>)
    ensures MarkList(page) == Page(Marks(Window(rows, convId, sinceTs, untilTs)), cursor, limit)
    ensures forall m :: m in page ==> m in Window(rows, convId, sinceTs, untilTs)
    ensures Keyed(rows) ==> IsPage(rows, convId, sinceTs, untilTs, cursor, limit, page)
  {
    hide Page, Window, Keyed, IsPage;
    var window := Window(rows, convId, sinceTs, untilTs);
    var marks := LastMarks(Marks(window), cursor, limit);
    page := [];
    for i := 0 to |marks|
      invariant MarkList(page) == marks[..i] && forall m :: m in page ==> m in window
    {
      assert marks[i] in marks;
      var m :| m in window && MarkOf(m) == marks[i];
      page := page + [m];
    }
    assert marks[..|marks|] == marks;
    assert Fetched(rows, convId, sinceTs, untilTs, cursor, limit, page);
    if Keyed(rows) {
      PageIs(rows, convId, sinceTs, untilTs, cursor, limit, page);
    }
  }

  lemma ReverseTake(s: seq<Mark>, limit: nat)
    ensures Reverse(s[..Min(limit, |s|)]) == LastOf(Reverse(s), limit)
  {
    hide Reverse;
    var n := Min(limit, |s|);
    var front := s[..n];
    assert LastOf(Reverse(s), limit) == Reverse(s)[|s| - n..];
    forall i | 0 <= i < n
      ensures Reverse(front)[i] == Reverse(s)[|s| - n + i]
    {
      assert front[n - 1 - i] == s[n - 1 - i];
    }
  }

  /** A cursor is offered only behind a full page. */
  function NextOlder(rows: seq<Mark>, limit: nat): Option<string> {
    if |rows| >= limit && rows != [] then Some(CursorOf(rows[0])) else None
  }

  // ---- following the cursors ----

  /** The rows before the `r`-th, in order, are the first `r`. */
  lemma PageAt(marks: set<Mark>, all: seq<Mark>, r: nat, cursor: Option<string>, limit: nat)
    requires Lists(Earlier, all, marks) && r <= |all|
    requires if r < |all| then cursor.Some? && ParseCursor(cursor.value) == Some(all[r]) else cursor.None?
    ensures Page(marks, cursor, limit) == LastOf(all[..r], limit)
  {
    MarkOrder();
    var older := Before(marks, cursor);
    if r < |all| {
      forall m
        ensures m in all[..r] <==> m in older
      {
        if m in older {
          var i :| 0 <= i < |all| && all[i] == m;
          assert i < r;
          assert all[..r][i] == m;
        }
        if m in all[..r] {
          assert m in all;
        }
      }
    } else {
      assert all[..r] == all;
    }
    ListsUnique(Earlier, OrderBy(Earlier, older), all[..r], older);
  }

  /** Pages are fetched newest first; together they read the other way round. */
  function Joined<T>(pages: seq<seq<T>>): seq<T> {
    if pages == [] then [] else pages[|pages| - 1] + Joined(pages[..|pages| - 1])
  }

  /** Rows whose cursor gets offered: the oldest of every full page. */
  ghost predicate OffersReadable(all: seq<Mark>, limit: nat) {
    forall k :: 1 <= k && 0 < k * limit <= |all| ==> Readable(all[|all| - k * limit])
  }

  /** The page of the first `r` rows, and the cursor behind it. */
  lemma LastPage(all: seq<Mark>, r: nat, limit: nat)
    requires r <= |all| && limit >= 1
    ensures var rows := LastOf(all[..r], limit);
      if r < limit then NextOlder(rows, limit) == None && rows == all[..r] && rows + all[r..] == all
      else NextOlder(rows, limit) == Some(CursorOf(all[r - limit])) && rows + all[r..] == all[r - limit..]
  {
    hide CursorOf;
  }

  /** Rows that carry all marks of a window, in order, are all its rows, once each. */
  lemma EachRowOnce(rows: set<Message>, convId: string, sinceTs: Option<int>, untilTs: Option<int>, list: seq<Message>)
    requires Keyed(rows) && forall m :: m in list ==> m in Window(rows, convId, sinceTs, untilTs)
    requires Lists(Earlier, MarkList(list), Marks(Window(rows, convId, sinceTs, untilTs)))
    ensures NoDup(list) && Elems(list) == Window(rows, convId, sinceTs, untilTs)
  {
    hide Earlier, Window;
    MarkOrder();
    var window := Window(rows, convId, sinceTs, untilTs);
    ListsNoDup(Earlier, MarkList(list), Marks(window));
    forall i, j | 0 <= i < j < |list|
      ensures list[i] != list[j]
    {
      assert MarkList(list)[i] != MarkList(list)[j];
    }
    forall m | m in window
      ensures m in list
    {
      assert MarkOf(m) in MarkList(list);
      var i :| 0 <= i < |list| && MarkList(list)[i] == MarkOf(m);
      MarksTellRows(rows, convId, sinceTs, untilTs, list[i], m);
    }
  }

  /** What following the cursors through a window comes to. `ok` exactly when every offered cursor is readable: then each row is read
      once, the pages together in (ts, id) order; otherwise the last cursor offered leads back to the first page. */
  ghost predicate ReadThrough(window: set<Message>, limit: nat, pages: seq<seq<Message>>, ok: bool) {
    MarkOrder();
    var all := OrderBy(Earlier, Marks(window));
    && (ok <==> OffersReadable(all, limit))
    && (ok ==> MarkList(Joined(pages)) == all && NoDup(Joined(pages)) && Elems(Joined(pages)) == window)
    && (!ok ==> pages != [] && NextOlder(MarkList(pages[|pages| - 1]), limit).Some?
                && Page(Marks(window), NextOlder(MarkList(pages[|pages| - 1]), limit), limit) == MarkList(pages[0]))
  }

  /** Main result. Following `nextOlder` from the first page of a store's conversation until none is offered ends, and reads every
      non-system row of the time window exactly once, in order, if and only if every offered cursor is readable. */
  method FollowAll(store: ChatStores.ChatStore, convId: string, sinceTs: Option<int>, untilTs: Option<int>, limit: nat)
    returns (pages: seq<seq<Message>>, ok: bool)
    requires limit >= 1 && store.Valid()
    ensures ReadThrough(Window(Elems(store.messages), convId, sinceTs, untilTs), limit, pages, ok)
  {
    hide ReadThrough, Window;
    StoreIsKeyed(store.messages);
    pages, ok := FollowRows(Elems(store.messages), convId, sinceTs, untilTs, limit);
  }

  lemma Ended(window: set<Message>, limit: nat, pages: seq<seq<Message>>)
    requires StrictTotal(Earlier) && OffersReadable(OrderBy(Earlier, Marks(window)), limit)
    requires MarkList(Joined(pages)) == OrderBy(Earlier, Marks(window)) && NoDup(Joined(pages)) && Elems(Joined(pages)) == window
    ensures ReadThrough(window, limit, pages, true)
  {
  }

  lemma Misled(window: set<Message>, limit: nat, pages: seq<seq<Message>>)
    requires StrictTotal(Earlier) && !OffersReadable(OrderBy(Earlier, Marks(window)), limit)
    requires pages != [] && NextOlder(MarkList(pages[|pages| - 1]), limit).Some?
    requires Page(Marks(window), NextOlder(MarkList(pages[|pages| - 1]), limit), limit) == MarkList(pages[0])
    ensures ReadThrough(window, limit, pages, false)
  {
  }

  /** The same over any rows with the table's key. */
  method FollowRows(rows: set<Message>, convId: string, sinceTs: Option<int>, untilTs: Option<int>, limit: nat)
    returns (pages: seq<seq<Message>>, ok: bool)
    requires limit >= 1 && Keyed(rows)
    ensures ReadThrough(Window(rows, convId, sinceTs, untilTs), limit, pages, ok)
  {
    hide StrictTotal, Lists, OrderBy, Readable, ParseCursor, CursorOf, Page, NextOlder, LastOf, Joined, OffersReadable,
         Window, MarkOf,
         Keyed, NoDup, Elems, ReadThrough, Reached;
    MarkOrder();
    ghost var marks := Marks(Window(rows, convId, sinceTs, untilTs));
    ghost var all := OrderBy(Earlier, marks);
    ghost var r, k: nat := |all|, 0;
    pages, ok := [], true;
    var cursor: Option<string> := None;
    NoPages(all);
    ReachedStart(all, limit);
    while true
      invariant ok && 0 <= r <= |all| && Reached(all, limit, k, r)
      invariant if r == |all| then pages == [] && cursor.None? else pages != [] && cursor.Some? && ParseCursor(cursor.value) == Some(all[r])
      invariant MarkList(Joined(pages)) == all[r..]
      invariant forall m :: m in Joined(pages) ==> m in Window(rows, convId, sinceTs, untilTs)
      invariant pages != [] ==> MarkList(pages[0]) == Page(marks, None, limit)
      decreases r
    {
      var page := QueryPage(rows, convId, sinceTs, untilTs, cursor, limit);
      PageAt(marks, all, r, cursor, limit);
      LastPage(all, r, limit);
      JoinedStep(pages, page);
      MarksJoined(page, Joined(pages));
      pages := pages + [page];
      var next := NextOlder(MarkList(page), limit);
      if next.None? {
        Finished(all, limit, k, r);
        EachRowOnce(rows, convId, sinceTs, untilTs, Joined(pages));
        Ended(Window(rows, convId, sinceTs, untilTs), limit, pages);
        return;
      }
      CursorRoundTrip(all[r - limit]);
      if ParseCursor(next.value).None? {
        ok := false;
        Unreadable(all, limit, k, r);
        Ignored(marks, next.value, limit);
        Misled(Window(rows, convId, sinceTs, untilTs), limit, pages);
        return;
      }
      ReachedNext(all, limit, k, r);
      r, k, cursor := r - limit, k + 1, next;
    }
  }

  /** A cursor that does not parse gives the first page again. */
  lemma Ignored(marks: set<Mark>, cursor: string, limit: nat)
    requires ParseCursor(cursor).None?
    ensures Page(marks, Some(cursor), limit) == Page(marks, None, limit)
  {
  }

  /** One row before the epoch, one row a page: the cursor offered behind the only page leads to that page again. */
  lemma LedBack()
    ensures var marks := {(-1, "a")};
      var first := Page(marks, None, 1);
      && first == [(-1, "a")] && NextOlder(first, 1).Some?
      && Page(marks, NextOlder(first, 1), 1) == first
  {
    hide CursorOf, ParseCursor;
    MarkOrder();
    var marks: set<Mark> := {(-1, "a")};
    assert Lists(Earlier, [(-1, "a")], marks);
    ListsUnique(Earlier, OrderBy(Earlier, marks), [(-1, "a")], marks);
    CursorRoundTrip((-1, "a"));
    Ignored(marks, CursorOf((-1, "a")), 1);
  }

  lemma NoPages(all: seq<Mark>)
    ensures var none: seq<seq<Message>> := []; Joined(none) == [] && MarkList(Joined(none)) == all[|all|..]
  {
  }

  lemma JoinedStep<T>(pages: seq<seq<T>>, page: seq<T>)
    ensures Joined(pages + [page]) == page + Joined(pages)
  {
    TakeAppend(pages, page);
  }

  lemma MarksJoined(a: seq<Message>, b: seq<Message>)
    ensures MarkList(a + b) == MarkList(a) + MarkList(b)
  {
  }

  /** After `k` pages `r` rows are left, and every cursor offered so far was readable. */
  ghost predicate Reached(all: seq<Mark>, limit: nat, k: nat, r: nat) {
    && r <= |all| && r == |all| - k * limit
    && forall i :: 1 <= i <= k && 0 < i * limit <= |all| ==> Readable(all[|all| - i * limit])
  }

  lemma ReachedStart(all: seq<Mark>, limit: nat)
    ensures Reached(all, limit, 0, |all|)
  {
  }

  lemma ReachedNext(all: seq<Mark>, limit: nat, k: nat, r: nat)
    requires Reached(all, limit, k, r) && limit >= 1 && r >= limit && Readable(all[r - limit])
    ensures Reached(all, limit, k + 1, r - limit)
  {
    hide Readable;
    assert |all| - (k + 1) * limit == r - limit;
  }

  lemma Finished(all: seq<Mark>, limit: nat, k: nat, r: nat)
    requires limit >= 1 && r < limit && Reached(all, limit, k, r)
    ensures OffersReadable(all, limit)
  {
    hide Readable;
    forall i | 1 <= i && 0 < i * limit <= |all|
      ensures Readable(all[|all| - i * limit])
    {
      Within(i, k, limit);
    }
  }

  lemma {:induction false} Within(i: nat, k: nat, limit: nat)
    ensures i > k ==> i * limit >= k * limit + limit
  {
    if i > k + 1 {
      Within(i - 1, k, limit);
      assert i * limit == (i - 1) * limit + limit;
    } else if i == k + 1 {
      assert i * limit == k * limit + limit;
    }
  }

  lemma Unreadable(all: seq<Mark>, limit: nat, k: nat, r: nat)
    requires limit >= 1 && Reached(all, limit, k, r) && r >= limit && !Readable(all[r - limit])
    ensures !OffersReadable(all, limit)
  {
    hide Readable;
    assert |all| - (k + 1) * limit == r - limit;
    assert 0 < (k + 1) * limit;
  }
}
