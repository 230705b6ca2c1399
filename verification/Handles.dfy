/** Short stable handles for conversations and people, extended on collision in assignment order. */
module Handles {
  import opened Base

  const SHORTEST := 6
  const LONGEST := 40

  /** `sha1Hex`: 40 hex digits of a full id. */
  type Hash = string -> string

  /** Distinct ids among `ids` have distinct 40-digit hashes. */
  ghost predicate Separates(sha: Hash, ids: set<string>) {
    && (forall id :: |sha(id)| == LONGEST)
    && (forall a, b :: a in ids && b in ids && sha(a) == sha(b) ==> a == b)
  }

  function Slice(s: string, n: nat): string {
    if n <= |s| then s[..n] else s
  }

  function MakeHandle(sha: Hash, prefix: char, fullId: string, len: nat): string {
    [prefix, ':'] + Slice(sha(fullId), len)
  }

  /** The first of the lengths `len..40` whose handle is free, else the id's own first twelve characters. */
  function FirstFree(sha: Hash, used: set<string>, prefix: char, fullId: string, len: nat): string
    decreases LONGEST + 1 - len
  {
    if len > LONGEST then [prefix, ':'] + Slice(fullId, 12)
    else if MakeHandle(sha, prefix, fullId, len) !in used then MakeHandle(sha, prefix, fullId, len)
    else FirstFree(sha, used, prefix, fullId, len + 1)
  }

  /** The allocator's two collections. */
  datatype Book = Book(byFull: map<string, string>, used: set<string>)

  const EMPTY := Book(map[], {})

  function Assign(sha: Hash, b: Book, prefix: char, fullId: string): Book {
    if fullId in b.byFull && b.byFull[fullId] != "" then b
    else
      var h := FirstFree(sha, b.used, prefix, fullId, SHORTEST);
      Book(b.byFull[fullId := h], b.used + {h})
  }

  /** An issued handle is never empty, so it is final. */
  ghost predicate Issued(b: Book) {
    forall id :: id in b.byFull ==> b.byFull[id] != ""
  }

  lemma AssignKeeps(sha: Hash, b: Book, prefix: char, fullId: string)
    requires Issued(b)
    ensures var r := Assign(sha, b, prefix, fullId);
      && Issued(r) && r.byFull.Keys == b.byFull.Keys + {fullId}
      && forall id :: id in b.byFull ==> r.byFull[id] == b.byFull[id]
  {
    FirstFreeNonEmpty(sha, b.used, prefix, fullId, SHORTEST);
  }

  lemma {:induction false} FirstFreeNonEmpty(sha: Hash, used: set<string>, prefix: char, fullId: string, len: nat)
    ensures FirstFree(sha, used, prefix, fullId, len) != ""
    decreases LONGEST + 1 - len
  {
    if len <= LONGEST {
      FirstFreeNonEmpty(sha, used, prefix, fullId, len + 1);
    }
  }

  /** The prefix letter, a colon and the first `n` digits of the id's hash. */
  function Spelled(sha: Hash, prefix: char, id: string, n: nat): string
    requires n <= |sha(id)|
  {
    [prefix] + ":" + sha(id)[..n]
  }

  lemma {:induction false} FirstFreeIsFirst(sha: Hash, used: set<string>, prefix: char, id: string, len: nat, n: nat)
    requires |sha(id)| == 40 && len <= n <= 40 && Spelled(sha, prefix, id, n) !in used
    requires forall m :: len <= m < n ==> Spelled(sha, prefix, id, m) in used
    ensures FirstFree(sha, used, prefix, id, len) == Spelled(sha, prefix, id, n)
    decreases n - len
  {
    assert MakeHandle(sha, prefix, id, len) == Spelled(sha, prefix, id, len);
    if len < n {
      FirstFreeIsFirst(sha, used, prefix, id, len + 1, n);
    }
  }

  lemma {:induction false} NoneFree(sha: Hash, used: set<string>, prefix: char, id: string, len: nat)
    requires |sha(id)| == 40 && len <= 41 && forall m :: len <= m <= 40 ==> Spelled(sha, prefix, id, m) in used
    ensures FirstFree(sha, used, prefix, id, len) == [prefix] + ":" + id[..Min(12, |id|)]
    decreases 41 - len
  {
    if len <= 40 {
      assert MakeHandle(sha, prefix, id, len) == Spelled(sha, prefix, id, len);
      NoneFree(sha, used, prefix, id, len + 1);
    }
  }

  /** `n` is the least of the lengths 6 to 40 whose spelling is free. */
  ghost predicate ShortestFree(sha: Hash, used: set<string>, prefix: char, id: string, n: nat)
    requires |sha(id)| == 40
  {
    6 <= n <= 40 && Spelled(sha, prefix, id, n) !in used && forall m :: 6 <= m < n ==> Spelled(sha, prefix, id, m) in used
  }

  /** A new id gets the shortest free run of six to forty digits of its hash, and its own first twelve characters when none is free. */
  lemma NewHandle(sha: Hash, b: Book, prefix: char, id: string)
    requires |sha(id)| == 40 && id !in b.byFull
    ensures forall n :: ShortestFree(sha, b.used, prefix, id, n) ==> Assign(sha, b, prefix, id).byFull[id] == Spelled(sha, prefix, id, n)
    ensures (forall n :: 6 <= n <= 40 ==> Spelled(sha, prefix, id, n) in b.used) ==>
      Assign(sha, b, prefix, id).byFull[id] == [prefix] + ":" + id[..Min(12, |id|)]
  {
    hide FirstFree, Spelled;
    forall n | ShortestFree(sha, b.used, prefix, id, n)
      ensures FirstFree(sha, b.used, prefix, id, 6) == Spelled(sha, prefix, id, n)
    {
      FirstFreeIsFirst(sha, b.used, prefix, id, 6, n);
    }
    if forall n :: 6 <= n <= 40 ==> Spelled(sha, prefix, id, n) in b.used {
      NoneFree(sha, b.used, prefix, id, 6);
    }
  }

  /** One assignment per id, in order. */
  function AssignAll(sha: Hash, b: Book, prefix: char, ids: seq<string>): Book {
    if ids == [] then b
    else Assign(sha, AssignAll(sha, b, prefix, ids[..|ids| - 1]), prefix, ids[|ids| - 1])
  }

  /** `h` is a prefix of the id's hash, 6 to 40 digits, under some prefix letter. */
  ghost predicate IsHandle(sha: Hash, id: string, h: string) {
    exists prefix: char, len :: SHORTEST <= len <= LONGEST && h == MakeHandle(sha, prefix, id, len)
  }

  /** What every allocator run keeps: issued handles are handles of their ids, are exactly the used
      ones, and no two ids share one. */
  ghost predicate Sound(sha: Hash, b: Book) {
    && b.used == b.byFull.Values
    && (forall id :: id in b.byFull ==> IsHandle(sha, id, b.byFull[id]))
    && (forall id, id' :: id in b.byFull && id' in b.byFull && b.byFull[id] == b.byFull[id'] ==> id == id')
  }

  /** A full-length handle tells ids apart from any handle of another id. */
  lemma FullHandleSeparates(sha: Hash, ids: set<string>, p: char, a: string, q: char, b: string, n: nat)
    requires Separates(sha, ids) && a in ids && b in ids && n <= LONGEST
    requires MakeHandle(sha, p, a, LONGEST) == MakeHandle(sha, q, b, n)
    ensures a == b
  {
    var h := MakeHandle(sha, p, a, LONGEST);
    assert h[2..] == sha(a) && h[2..] == sha(b)[..n];
    assert sha(b)[..n] == sha(b);
  }

  /** The twelve-character fallback is unreachable while hashes separate the ids. */
  lemma {:induction false} FirstFreeIsHandle(sha: Hash, ids: set<string>, b: Book, prefix: char, fullId: string, len: nat)
    requires Separates(sha, ids) && b.byFull.Keys + {fullId} <= ids
    requires Sound(sha, b) && fullId !in b.byFull && SHORTEST <= len <= LONGEST
    ensures var h := FirstFree(sha, b.used, prefix, fullId, len); h !in b.used && IsHandle(sha, fullId, h)
    decreases LONGEST - len
  {
    if len < LONGEST {
      FirstFreeIsHandle(sha, ids, b, prefix, fullId, len + 1);
    } else {
      var h := MakeHandle(sha, prefix, fullId, LONGEST);
      forall id | id in b.byFull
        ensures b.byFull[id] != h
      {
        if b.byFull[id] == h {
          var p: char, n :| SHORTEST <= n <= LONGEST && h == MakeHandle(sha, p, id, n);
          FullHandleSeparates(sha, ids, prefix, fullId, p, id, n);
        }
      }
    }
    assert IsHandle(sha, fullId, MakeHandle(sha, prefix, fullId, len));
  }

  /** One assignment keeps the book sound and never changes an issued handle. */
  lemma AssignSound(sha: Hash, ids: set<string>, b: Book, prefix: char, fullId: string)
    requires Sound(sha, b) && Separates(sha, ids) && b.byFull.Keys + {fullId} <= ids
    ensures var r := Assign(sha, b, prefix, fullId);
      && Sound(sha, r) && r.byFull.Keys == b.byFull.Keys + {fullId}
      && (forall id :: id in b.byFull ==> r.byFull[id] == b.byFull[id])
  {
    hide FirstFree, Separates, IsHandle;
    if fullId in b.byFull {
      assert IsHandle(sha, fullId, b.byFull[fullId]);
      HandleNonEmpty(sha, fullId, b.byFull[fullId]);
    } else {
      FirstFreeIsHandle(sha, ids, b, prefix, fullId, SHORTEST);
      SoundGrows(sha, b, fullId, FirstFree(sha, b.used, prefix, fullId, SHORTEST));
    }
  }

  lemma HandleNonEmpty(sha: Hash, id: string, h: string)
    requires IsHandle(sha, id, h)
    ensures h != ""
  {
  }

  lemma SoundGrows(sha: Hash, b: Book, fullId: string, h: string)
    requires Sound(sha, b) && fullId !in b.byFull && h !in b.used && IsHandle(sha, fullId, h)
    ensures Sound(sha, Book(b.byFull[fullId := h], b.used + {h}))
  {
    hide IsHandle;
    BookGrows(b, fullId, h);
    assert forall id :: id in b.byFull ==> b.byFull[id] in b.byFull.Values;
  }

  lemma BookGrows(b: Book, fullId: string, h: string)
    requires fullId !in b.byFull && b.used == b.byFull.Values
    ensures b.used + {h} == b.byFull[fullId := h].Values
  {
    var m := b.byFull[fullId := h];
    assert m[fullId] == h;
    forall v | v in b.used
      ensures v in m.Values
    {
      var id :| id in b.byFull && b.byFull[id] == v;
      assert m[id] == v;
    }
  }

  /** Handles never change once issued, whatever is assigned later. */
  lemma {:induction false} AssignAllSound(sha: Hash, ids: set<string>, b: Book, prefix: char, todo: seq<string>)
    requires Sound(sha, b) && Separates(sha, ids) && b.byFull.Keys <= ids
    requires forall id :: id in todo ==> id in ids
    ensures var r := AssignAll(sha, b, prefix, todo);
      && Sound(sha, r) && r.byFull.Keys <= ids
      && (forall id :: id in r.byFull <==> id in b.byFull || id in todo)
      && (forall id :: id in b.byFull ==> r.byFull[id] == b.byFull[id])
  {
    if todo != [] {
      var n := |todo| - 1;
      assert todo == todo[..n] + [todo[n]];
      AssignAllSound(sha, ids, b, prefix, todo[..n]);
      AssignSound(sha, ids, AssignAll(sha, b, prefix, todo[..n]), prefix, todo[n]);
    }
  }

  lemma AssignAllStep(sha: Hash, b: Book, prefix: char, ids: seq<string>, id: string)
    ensures AssignAll(sha, b, prefix, ids + [id]) == Assign(sha, AssignAll(sha, b, prefix, ids), prefix, id)
  {
    TakeAppend(ids, id);
  }

  lemma StartAssign(sha: Hash, b: Book, prefix: char)
    ensures AssignAll(sha, b, prefix, []) == b
  {
  }

  ghost predicate Grows(before: map<string, string>, after: map<string, string>) {
    forall x :: x in before ==> x in after && after[x] == before[x]
  }

  /** No two of the ids share their first six digits. */
  ghost predicate NoShortCollision(sha: Hash, ids: set<string>) {
    forall a, b :: a in ids && b in ids && Slice(sha(a), SHORTEST) == Slice(sha(b), SHORTEST) ==> a == b
  }

  ghost predicate IsShort(sha: Hash, id: string, h: string) {
    exists prefix: char :: h == MakeHandle(sha, prefix, id, SHORTEST)
  }

  ghost predicate AllShort(sha: Hash, b: Book) {
    && b.used == b.byFull.Values
    && forall id :: id in b.byFull ==> IsShort(sha, id, b.byFull[id])
  }

  lemma SameDigits(sha: Hash, prefix: char, a: string, b: string, h: string)
    requires h == MakeHandle(sha, prefix, a, SHORTEST) && IsShort(sha, b, h)
    ensures Slice(sha(a), SHORTEST) == Slice(sha(b), SHORTEST)
  {
    assert h[2..] == Slice(sha(a), SHORTEST);
    var p: char :| h == MakeHandle(sha, p, b, SHORTEST);
    assert h[2..] == Slice(sha(b), SHORTEST);
  }

  /** Without six-digit collisions the assignment order is irrelevant: a new id gets its six-digit handle. */
  lemma AssignShort(sha: Hash, b: Book, prefix: char, fullId: string, ids: set<string>)
    requires AllShort(sha, b) && b.byFull.Keys + {fullId} <= ids && NoShortCollision(sha, ids)
    ensures AllShort(sha, Assign(sha, b, prefix, fullId))
    ensures fullId !in b.byFull ==>
      Assign(sha, b, prefix, fullId).byFull == b.byFull[fullId := MakeHandle(sha, prefix, fullId, SHORTEST)]
  {
    var h := MakeHandle(sha, prefix, fullId, SHORTEST);
    if fullId in b.byFull {
      assert IsShort(sha, fullId, b.byFull[fullId]);
    } else {
      forall id | id in b.byFull
        ensures b.byFull[id] != h
      {
        if b.byFull[id] == h {
          SameDigits(sha, prefix, fullId, id, h);
        }
      }
      BookGrows(b, fullId, h);
      assert IsShort(sha, fullId, h);
    }
  }

  /** Every issued handle is the six-digit one of its kind: conversations and people share no id, and no six digits collide. */
  ghost predicate ShortIn(sha: Hash, convs: set<string>, people: set<string>, b: Book) {
    && convs !! people && NoShortCollision(sha, convs + people)
    && b.byFull.Keys <= convs + people && b.used == b.byFull.Values
    && forall id :: id in b.byFull ==> b.byFull[id] == ShortHandle(sha, convs, id)
  }

  function ShortHandle(sha: Hash, convs: set<string>, id: string): string {
    MakeHandle(sha, if id in convs then 'c' else 'p', id, SHORTEST)
  }

  lemma {:induction false} AssignAllShort(sha: Hash, convs: set<string>, people: set<string>, b: Book, prefix: char,
                                          ids: seq<string>)
    requires ShortIn(sha, convs, people, b)
    requires if prefix == 'c' then Elems(ids) <= convs else prefix == 'p' && Elems(ids) <= people
    ensures ShortIn(sha, convs, people, AssignAll(sha, b, prefix, ids))
  {
    hide NoShortCollision, Assign;
    if ids != [] {
      var n := |ids| - 1;
      assert ids == ids[..n] + [ids[n]];
      assert ids[n] in Elems(ids) && Elems(ids[..n]) <= Elems(ids);
      AssignAllShort(sha, convs, people, b, prefix, ids[..n]);
      AssignOneShort(sha, convs, people, AssignAll(sha, b, prefix, ids[..n]), prefix, ids[n]);
    }
  }

  lemma AssignOneShort(sha: Hash, convs: set<string>, people: set<string>, b: Book, prefix: char, id: string)
    requires ShortIn(sha, convs, people, b) && (if prefix == 'c' then id in convs else prefix == 'p' && id in people)
    ensures ShortIn(sha, convs, people, Assign(sha, b, prefix, id))
  {
    hide NoShortCollision, FirstFree;
    forall x | x in b.byFull
      ensures IsShort(sha, x, b.byFull[x])
    {
      assert b.byFull[x] == MakeHandle(sha, if x in convs then 'c' else 'p', x, SHORTEST);
    }
    AssignShort(sha, b, prefix, id, convs + people);
    if id in b.byFull {
      assert b.byFull[id] != "";
    }
  }

  /** Between the two states only `convIds` and `personIds` were given handles, each of its own kind. */
  ghost predicate KeepsShort(sha: Hash, before: Book, after: Book, convIds: set<string>, personIds: set<string>) {
    forall convs, people :: convIds <= convs && personIds <= people && ShortIn(sha, convs, people, before) ==>
      ShortIn(sha, convs, people, after)
  }

  lemma AssignKeepsShort(sha: Hash, b: Book, prefix: char, ids: seq<string>)
    requires prefix == 'c' || prefix == 'p'
    ensures KeepsShort(sha, b, AssignAll(sha, b, prefix, ids), if prefix == 'c' then Elems(ids) else {},
                       if prefix == 'p' then Elems(ids) else {})
  {
    hide ShortIn, AssignAll;
    var convIds, personIds := if prefix == 'c' then Elems(ids) else {}, if prefix == 'p' then Elems(ids) else {};
    forall convs, people | convIds <= convs && personIds <= people && ShortIn(sha, convs, people, b)
      ensures ShortIn(sha, convs, people, AssignAll(sha, b, prefix, ids))
    {
      AssignAllShort(sha, convs, people, b, prefix, ids);
    }
  }

  lemma KeepsShortTwice(sha: Hash, a: Book, b: Book, c: Book, convIds: set<string>, personIds: set<string>,
                        convIds': set<string>, personIds': set<string>)
    requires KeepsShort(sha, a, b, convIds, personIds) && KeepsShort(sha, b, c, convIds', personIds')
    ensures KeepsShort(sha, a, c, convIds + convIds', personIds + personIds')
  {
    hide ShortIn;
  }

  lemma KeepsShortWider(sha: Hash, a: Book, b: Book, convIds: set<string>, personIds: set<string>, convIds': set<string>,
                        personIds': set<string>)
    requires KeepsShort(sha, a, b, convIds, personIds) && convIds <= convIds' && personIds <= personIds'
    ensures KeepsShort(sha, a, b, convIds', personIds')
  {
    hide ShortIn;
  }

  class HandleAllocator {
    const sha: Hash
    var handleByFull: map<string, string>
    var usedHandles: set<string>

    ghost function State(): Book
      reads this
    {
      Book(handleByFull, usedHandles)
    }

    constructor (sha: Hash)
      ensures this.sha == sha && State() == EMPTY
    {
      this.sha := sha;
      handleByFull, usedHandles := map[], {};
    }

    method HandleFor(prefix: char, fullId: string) returns (h: string)
      modifies this
      ensures State() == Assign(sha, old(State()), prefix, fullId)
      ensures fullId in handleByFull && h == handleByFull[fullId] && h != ""
    {
      if fullId in handleByFull && handleByFull[fullId] != "" {
        return handleByFull[fullId];
      }
      var len := SHORTEST;
      while len <= LONGEST
        invariant len <= LONGEST + 1 && State() == old(State())
        invariant FirstFree(sha, usedHandles, prefix, fullId, SHORTEST) == FirstFree(sha, usedHandles, prefix, fullId, len)
      {
        h := MakeHandle(sha, prefix, fullId, len);
        if h !in usedHandles {
          usedHandles := usedHandles + {h};
          handleByFull := handleByFull[fullId := h];
          return;
        }
        len := len + 1;
      }
      h := [prefix, ':'] + Slice(fullId, 12);
      usedHandles := usedHandles + {h};
      handleByFull := handleByFull[fullId := h];
    }
  }
}
