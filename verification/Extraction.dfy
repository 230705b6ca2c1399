/** What a full build takes from a snapshot, said of the stores, records and bodies themselves: where each row comes from. */
module Extraction {
  import opened Base
  import opened Tables
  import opened Source
  import opened Recompute
  import opened Delta
  import opened Builds
  import opened Sorting

  /** A place in a traversal: which store, which record of it, which body of that. */
  datatype Place = Place(store: nat, record: nat, body: nat)

  predicate Before(p: Place, q: Place) {
    || p.store < q.store
    || (p.store == q.store && (p.record < q.record || (p.record == q.record && p.body < q.body)))
  }

  /** The record at a place. */
  ghost predicate HasRecord(snap: Snapshot, targets: seq<string>, p: Place, r: Rec) {
    && p.store < |targets| && targets[p.store] in snap.buckets
    && p.record < |snap.buckets[targets[p.store]]| && snap.buckets[targets[p.store]][p.record] == r
  }

  ghost predicate Stands<T(!new)>(snap: Snapshot, targets: seq<string>, f: Rec -> seq<T>, p: Place, x: T) {
    exists r :: HasRecord(snap, targets, p, r) && p.body < |f(r)| && f(r)[p.body] == x
  }

  // ---- one traversal ----

  function Gather<T>(recs: seq<Rec>, f: Rec -> seq<T>): seq<T> {
    if recs == [] then [] else Gather(recs[..|recs| - 1], f) + f(recs[|recs| - 1])
  }

  lemma {:induction false} GatherAppend<T>(a: seq<Rec>, b: seq<Rec>, f: Rec -> seq<T>)
    ensures Gather(a + b, f) == Gather(a, f) + Gather(b, f)
    decreases |b|
  {
    if b == [] {
      assert a + b == a;
    } else {
      GatherAppend(a, b[..|b| - 1], f);
      assert (a + b)[..|a + b| - 1] == a + b[..|b| - 1];
    }
  }

  ghost predicate InBucket<T>(store: nat, bucket: seq<Rec>, f: Rec -> seq<T>, p: Place) {
    p.store == store && p.record < |bucket| && p.body < |f(bucket[p.record])|
  }

  /** The places of one record's values. */
  function RecordPlaces(store: nat, record: nat, count: nat): (ps: seq<Place>)
    ensures |ps| == count
  {
    seq(count, l requires 0 <= l < count => Place(store, record, l))
  }

  function BucketPlaces<T>(store: nat, bucket: seq<Rec>, f: Rec -> seq<T>): (ps: seq<Place>)
    ensures |ps| == |Gather(bucket, f)|
  {
    if bucket == [] then []
    else BucketPlaces(store, bucket[..|bucket| - 1], f) + RecordPlaces(store, |bucket| - 1, |f(bucket[|bucket| - 1])|)
  }

  /** The places of everything gathered, in order. */
  function Places<T>(snap: Snapshot, targets: seq<string>, f: Rec -> seq<T>): (ps: seq<Place>) {
    if targets == [] then []
    else Places(snap, targets[..|targets| - 1], f) + BucketPlaces(|targets| - 1, Bucket(snap, targets[|targets| - 1]), f)
  }

  lemma InFront<T>(store: nat, bucket: seq<Rec>, f: Rec -> seq<T>, p: Place)
    requires bucket != []
    ensures InBucket(store, bucket, f, p) <==>
      (InBucket(store, bucket[..|bucket| - 1], f, p) || p in RecordPlaces(store, |bucket| - 1, |f(bucket[|bucket| - 1])|))
  {
    var last := RecordPlaces(store, |bucket| - 1, |f(bucket[|bucket| - 1])|);
    if InBucket(store, bucket, f, p) && p.record == |bucket| - 1 {
      assert last[p.body] == p;
    }
  }

  lemma {:induction false} BucketMembers<T>(store: nat, bucket: seq<Rec>, f: Rec -> seq<T>, p: Place)
    ensures p in BucketPlaces(store, bucket, f) <==> InBucket(store, bucket, f, p)
  {
    hide InBucket, RecordPlaces;
    if bucket != [] {
      BucketMembers(store, bucket[..|bucket| - 1], f, p);
      InFront(store, bucket, f, p);
    } else {
      NowhereInBucket(store, f, p);
    }
  }

  lemma NowhereInBucket<T>(store: nat, f: Rec -> seq<T>, p: Place)
    ensures !InBucket(store, [], f, p)
  {
  }

  ghost predicate InOrder(ps: seq<Place>) {
    forall i, j :: 0 <= i < j < |ps| ==> Before(ps[i], ps[j])
  }

  lemma OrderJoins(a: seq<Place>, b: seq<Place>)
    requires InOrder(a) && InOrder(b) && forall p, q :: p in a && q in b ==> Before(p, q)
    ensures InOrder(a + b)
  {
  }

  lemma {:induction false} BucketOrder<T>(store: nat, bucket: seq<Rec>, f: Rec -> seq<T>)
    ensures InOrder(BucketPlaces(store, bucket, f))
  {
    if bucket != [] {
      var n := |bucket| - 1;
      var front := BucketPlaces(store, bucket[..n], f);
      BucketOrder(store, bucket[..n], f);
      forall p | p in front
        ensures p.store == store && p.record < n
      {
        BucketMembers(store, bucket[..n], f, p);
      }
      OrderJoins(front, RecordPlaces(store, n, |f(bucket[n])|));
    }
  }

  lemma {:induction false} BucketValues<T>(store: nat, bucket: seq<Rec>, f: Rec -> seq<T>, i: nat)
    requires i < |Gather(bucket, f)|
    ensures var p := BucketPlaces(store, bucket, f)[i]; InBucket(store, bucket, f, p) && Gather(bucket, f)[i] == f(bucket[p.record])[p.body]
  {
    var n := |bucket| - 1;
    if i < |Gather(bucket[..n], f)| {
      BucketValues(store, bucket[..n], f, i);
    }
  }

  lemma {:induction false} PlacesCount<T>(snap: Snapshot, targets: seq<string>, f: Rec -> seq<T>)
    ensures |Places(snap, targets, f)| == |Gather(Records(snap, targets), f)|
  {
    if targets != [] {
      var n := |targets| - 1;
      PlacesCount(snap, targets[..n], f);
      GatherAppend(Records(snap, targets[..n]), Bucket(snap, targets[n]), f);
    }
  }

  /** A place of the traversal: a body of a record of a store. */
  ghost predicate IsPlace<T>(snap: Snapshot, targets: seq<string>, f: Rec -> seq<T>, p: Place) {
    p.store < |targets| && InBucket(p.store, Bucket(snap, targets[p.store]), f, p)
  }

  lemma {:induction false} Members<T>(snap: Snapshot, targets: seq<string>, f: Rec -> seq<T>, p: Place)
    ensures p in Places(snap, targets, f) <==> IsPlace(snap, targets, f, p)
  {
    hide InBucket, BucketPlaces;
    if targets != [] {
      var n := |targets| - 1;
      Members(snap, targets[..n], f, p);
      BucketMembers(n, Bucket(snap, targets[n]), f, p);
      StoreOf(n, Bucket(snap, targets[n]), f, p);
      assert p.store < n ==> targets[..n][p.store] == targets[p.store];
    }
  }

  lemma StoreOf<T>(store: nat, bucket: seq<Rec>, f: Rec -> seq<T>, p: Place)
    ensures InBucket(store, bucket, f, p) ==> p.store == store
  {
  }

  lemma {:induction false} PlacesOrder<T>(snap: Snapshot, targets: seq<string>, f: Rec -> seq<T>)
    ensures InOrder(Places(snap, targets, f))
  {
    hide InBucket, BucketPlaces, InOrder;
    if targets != [] {
      var n := |targets| - 1;
      var front, last := Places(snap, targets[..n], f), BucketPlaces(n, Bucket(snap, targets[n]), f);
      PlacesOrder(snap, targets[..n], f);
      BucketOrder(n, Bucket(snap, targets[n]), f);
      forall p, q | p in front && q in last
        ensures Before(p, q)
      {
        Members(snap, targets[..n], f, p);
        BucketMembers(n, Bucket(snap, targets[n]), f, q);
        StoreOf(n, Bucket(snap, targets[n]), f, q);
      }
      OrderJoins(front, last);
    } else {
      OrderNone();
    }
  }

  lemma OrderNone()
    ensures InOrder([])
  {
  }

  lemma {:induction false} Values<T(!new)>(snap: Snapshot, targets: seq<string>, f: Rec -> seq<T>, i: nat)
    requires i < |Gather(Records(snap, targets), f)|
    ensures |Places(snap, targets, f)| == |Gather(Records(snap, targets), f)|
    ensures Stands(snap, targets, f, Places(snap, targets, f)[i], Gather(Records(snap, targets), f)[i])
  {
    hide InBucket, BucketPlaces, Stands, Gather;
    PlacesCount(snap, targets, f);
    NothingGathered(f);
    var n := |targets| - 1;
    var bucket := Bucket(snap, targets[n]);
    var front := Gather(Records(snap, targets[..n]), f);
    PlacesCount(snap, targets[..n], f);
    GatherAppend(Records(snap, targets[..n]), bucket, f);
    if i < |front| {
      Values(snap, targets[..n], f, i);
      FrontStands(snap, targets, f, Places(snap, targets, f)[i], front[i]);
    } else {
      BucketValues(n, bucket, f, i - |front|);
      StoreOf(n, bucket, f, Places(snap, targets, f)[i]);
      LastStands(snap, targets, f, Places(snap, targets, f)[i], Gather(bucket, f)[i - |front|]);
    }
  }

  lemma NothingGathered<T>(f: Rec -> seq<T>)
    ensures Gather([], f) == []
  {
  }

  lemma FrontStands<T(!new)>(snap: Snapshot, targets: seq<string>, f: Rec -> seq<T>, p: Place, x: T)
    requires targets != [] && Stands(snap, targets[..|targets| - 1], f, p, x)
    ensures Stands(snap, targets, f, p, x)
  {
    var r :| HasRecord(snap, targets[..|targets| - 1], p, r) && p.body < |f(r)| && f(r)[p.body] == x;
    assert HasRecord(snap, targets, p, r);
  }

  lemma LastStands<T(!new)>(snap: Snapshot, targets: seq<string>, f: Rec -> seq<T>, p: Place, x: T)
    requires targets != [] && p.store == |targets| - 1
    requires InBucket(p.store, Bucket(snap, targets[p.store]), f, p) && f(Bucket(snap, targets[p.store])[p.record])[p.body] == x
    ensures Stands(snap, targets, f, p, x)
  {
    assert HasRecord(snap, targets, p, Bucket(snap, targets[p.store])[p.record]);
  }

  lemma StandsOnce<T(!new)>(snap: Snapshot, targets: seq<string>, f: Rec -> seq<T>, p: Place, x: T, y: T)
    requires Stands(snap, targets, f, p, x) && Stands(snap, targets, f, p, y)
    ensures x == y
  {
  }

  lemma StandsInside<T(!new)>(snap: Snapshot, targets: seq<string>, f: Rec -> seq<T>, p: Place, x: T)
    requires Stands(snap, targets, f, p, x)
    ensures IsPlace(snap, targets, f, p)
  {
  }

  /** A value stands at a place exactly when it is gathered there. */
  lemma PlaceOf<T(!new)>(snap: Snapshot, targets: seq<string>, f: Rec -> seq<T>, p: Place, x: T)
    ensures |Places(snap, targets, f)| == |Gather(Records(snap, targets), f)|
    ensures Stands(snap, targets, f, p, x) <==>
      exists i :: 0 <= i < |Places(snap, targets, f)| && Places(snap, targets, f)[i] == p && Gather(Records(snap, targets), f)[i] == x
  {
    hide Stands, Places, Gather, IsPlace;
    var ps, xs := Places(snap, targets, f), Gather(Records(snap, targets), f);
    PlacesCount(snap, targets, f);
    if Stands(snap, targets, f, p, x) {
      StandsInside(snap, targets, f, p, x);
      Members(snap, targets, f, p);
      var i :| 0 <= i < |ps| && ps[i] == p;
      Values(snap, targets, f, i);
      StandsOnce(snap, targets, f, p, x, xs[i]);
    }
    if i :| 0 <= i < |ps| && ps[i] == p && xs[i] == x {
      Values(snap, targets, f, i);
    }
  }

  /** A value is gathered when it stands somewhere. */
  lemma GatheredStands<T(!new)>(snap: Snapshot, targets: seq<string>, f: Rec -> seq<T>, x: T)
    ensures x in Gather(Records(snap, targets), f) <==> exists p :: Stands(snap, targets, f, p, x)
  {
    hide Stands, Gather, Places, Records;
    var xs := Gather(Records(snap, targets), f);
    if x in xs {
      var i :| 0 <= i < |xs| && xs[i] == x;
      Values(snap, targets, f, i);
    }
    if p :| Stands(snap, targets, f, p, x) {
      PlaceOf(snap, targets, f, p, x);
    }
  }

  // ---- the last value that counts ----

  /** `x` is the last value of a traversal that satisfies `counts`. */
  ghost predicate IsLast<T(!new)>(snap: Snapshot, targets: seq<string>, f: Rec -> seq<T>, counts: T -> bool, x: T) {
    counts(x) && exists p :: Stands(snap, targets, f, p, x) && NoneAfter(snap, targets, f, counts, p)
  }

  ghost predicate NoneAfter<T(!new)>(snap: Snapshot, targets: seq<string>, f: Rec -> seq<T>, counts: T -> bool, p: Place) {
    forall q, y :: Stands(snap, targets, f, q, y) && counts(y) ==> q == p || Before(q, p)
  }

  lemma LastPlaced<T(!new)>(snap: Snapshot, targets: seq<string>, f: Rec -> seq<T>, counts: T -> bool, i: nat)
    requires i < |Gather(Records(snap, targets), f)| && counts(Gather(Records(snap, targets), f)[i])
    requires forall j :: i < j < |Gather(Records(snap, targets), f)| ==> !counts(Gather(Records(snap, targets), f)[j])
    ensures IsLast(snap, targets, f, counts, Gather(Records(snap, targets), f)[i])
  {
    hide Stands, Before, Gather, Places;
    var ps, xs := Places(snap, targets, f), Gather(Records(snap, targets), f);
    PlacesOrder(snap, targets, f);
    Values(snap, targets, f, i);
    forall q, y | Stands(snap, targets, f, q, y) && counts(y)
      ensures q == ps[i] || Before(q, ps[i])
    {
      PlaceOf(snap, targets, f, q, y);
    }
  }

  // ---- messages ----

  /** A record's bodies, each with its record. */
  function Bodies(mapping: Mapping, self: Option<string>): Rec -> seq<(Rec, Message)> {
    (r: Rec) => Paired(r, mapping.messages(r.value, self))
  }

  function Paired(r: Rec, bodies: seq<Message>): (ps: seq<(Rec, Message)>)
    ensures |ps| == |bodies|
  {
    seq(|bodies|, i requires 0 <= i < |bodies| => (r, bodies[i]))
  }

  /** The row a body becomes. */
  function RowOf(x: (Rec, Message)): Message {
    x.1.(chainKey := ToHex(x.0.key), kind := ConvKind(x.1.convId))
  }

  /** A body with a conversation id becomes a row under its conversation and id. */
  predicate Makes(x: (Rec, Message), k: Key) {
    x.1.convId != "" && k == (x.1.convId, x.1.id)
  }

  function Shaped(xs: seq<(Rec, Message)>): seq<Message> {
    if xs == [] then []
    else
      var rest, x := Shaped(xs[..|xs| - 1]), xs[|xs| - 1];
      if x.1.convId == "" then rest else rest + [RowOf(x)]
  }

  lemma {:induction false} ShapedAppend(a: seq<(Rec, Message)>, b: seq<(Rec, Message)>)
    ensures Shaped(a + b) == Shaped(a) + Shaped(b)
    decreases |b|
  {
    hide RowOf;
    if b == [] {
      assert a + b == a;
    } else {
      ShapedAppend(a, b[..|b| - 1]);
      assert (a + b)[..|a + b| - 1] == a + b[..|b| - 1];
    }
  }

  lemma {:induction false} ShapedBodies(r: Rec, bodies: seq<Message>)
    ensures ShapeMessages(bodies, ToHex(r.key)) == Shaped(Paired(r, bodies))
  {
    hide ToHex, ConvKind;
    if bodies != [] {
      var n := |bodies| - 1;
      ShapedBodies(r, bodies[..n]);
      assert Paired(r, bodies)[..n] == Paired(r, bodies[..n]);
    }
  }

  lemma {:induction false} RowsShaped(mapping: Mapping, self: Option<string>, recs: seq<Rec>)
    ensures MessageRows(mapping, self, recs) == Shaped(Gather(recs, Bodies(mapping, self)))
  {
    hide Shaped, Paired, ShapeMessages, ToHex;
    if recs != [] {
      var n := |recs| - 1;
      RowsShaped(mapping, self, recs[..n]);
      ShapedBodies(recs[n], mapping.messages(recs[n].value, self));
      ShapedAppend(Gather(recs[..n], Bodies(mapping, self)), Bodies(mapping, self)(recs[n]));
    } else {
      NothingShaped();
    }
  }

  lemma NothingShaped()
    ensures Shaped([]) == []
  {
  }

  ghost predicate Beats(xs: seq<(Rec, Message)>, k: Key, i: int) {
    0 <= i < |xs| && Makes(xs[i], k) && forall j :: 0 <= j < |xs| && Makes(xs[j], k) ==>
      xs[j].1.version < xs[i].1.version || (xs[j].1.version == xs[i].1.version && j <= i)
  }

  lemma {:induction false} ShapedWinner(xs: seq<(Rec, Message)>, k: Key)
    ensures Winner(Shaped(xs), k).None? <==> forall x :: x in xs ==> !Makes(x, k)
    ensures Winner(Shaped(xs), k).Some? ==> exists i :: Beats(xs, k, i) && Winner(Shaped(xs), k) == Some(RowOf(xs[i]))
  {
    hide ToHex, ConvKind;
    if xs != [] {
      var n := |xs| - 1;
      var front, x := xs[..n], xs[n];
      ShapedWinner(front, k);
      WinnerStep(front, x, k);
      assert xs == front + [x];
      if Winner(Shaped(front), k).Some? {
        var i :| Beats(front, k, i) && Winner(Shaped(front), k) == Some(RowOf(front[i]));
        assert Beats(xs, k, n) || Beats(xs, k, i);
      } else {
        assert Makes(x, k) ==> Beats(xs, k, n);
      }
    }
  }

  lemma WinnerStep(front: seq<(Rec, Message)>, x: (Rec, Message), k: Key)
    ensures var w := Winner(Shaped(front), k);
      Winner(Shaped(front + [x]), k) ==
      if Makes(x, k) && (w.None? || x.1.version >= w.value.version) then Some(RowOf(x)) else w
  {
    TakeAppend(front, x);
    if x.1.convId != "" {
      TakeAppend(Shaped(front), RowOf(x));
    }
  }

  ghost predicate KeptAt(mapping: Mapping, self: Option<string>, snap: Snapshot, targets: seq<string>, k: Key, p: Place, x: (Rec, Message)) {
    && Stands(snap, targets, Bodies(mapping, self), p, x) && Makes(x, k)
    && forall q, y :: Stands(snap, targets, Bodies(mapping, self), q, y) && Makes(y, k) ==>
      y.1.version < x.1.version || (y.1.version == x.1.version && (q == p || Before(q, p)))
  }

  /** The place of the value that beats the others. */
  lemma BeatsAt(mapping: Mapping, self: Option<string>, snap: Snapshot, targets: seq<string>, k: Key, i: nat)
    requires Beats(Gather(Records(snap, targets), Bodies(mapping, self)), k, i)
    ensures |Places(snap, targets, Bodies(mapping, self))| == |Gather(Records(snap, targets), Bodies(mapping, self))|
    ensures KeptAt(mapping, self, snap, targets, k, Places(snap, targets, Bodies(mapping, self))[i],
                   Gather(Records(snap, targets), Bodies(mapping, self))[i])
  {
    hide Stands, Gather, Places, Before, Bodies, Makes, Records;
    var f := Bodies(mapping, self);
    var xs, ps := Gather(Records(snap, targets), f), Places(snap, targets, f);
    PlacesOrder(snap, targets, f);
    Values(snap, targets, f, i);
    forall q, y | Stands(snap, targets, f, q, y) && Makes(y, k)
      ensures y.1.version < xs[i].1.version || (y.1.version == xs[i].1.version && (q == ps[i] || Before(q, ps[i])))
    {
      PlaceOf(snap, targets, f, q, y);
      var j :| 0 <= j < |ps| && ps[j] == q && xs[j] == y;
      assert j < i ==> Before(ps[j], ps[i]);
    }
  }

  /** Main result: a full build has a row under a conversation and id exactly when some body of a mapped record carries them, and it is the
      body with the highest version, the last one met of several, with its record's key and its conversation's kind. */
  lemma BuiltMessages(mapping: Mapping, self: Option<string>, snap: Snapshot, targets: seq<string>, k: Key)
    ensures var t := FullMessages(mapping, self, Records(snap, targets));
      && (k in t <==> exists p, x :: Stands(snap, targets, Bodies(mapping, self), p, x) && Makes(x, k))
      && (k in t ==> exists p, x :: KeptAt(mapping, self, snap, targets, k, p, x) && t[k] == RowOf(x))
  {
    hide Stands, Gather, Shaped, Winner, UpsertAll, Places, Bodies, RowOf, Makes, Records, KeptAt, MessageRows;
    var recs, f := Records(snap, targets), Bodies(mapping, self);
    var xs := Gather(recs, f);
    RowsShaped(mapping, self, recs);
    UpsertAllLookup(map[], MessageRows(mapping, self, recs), k);
    ShapedWinner(xs, k);
    forall x
      ensures x in xs <==> exists p :: Stands(snap, targets, f, p, x)
    {
      GatheredStands(snap, targets, f, x);
    }
    if Winner(Shaped(xs), k).Some? {
      var i :| Beats(xs, k, i) && Winner(Shaped(xs), k) == Some(RowOf(xs[i]));
      BeatsAt(mapping, self, snap, targets, k, i);
    }
  }

  // ---- conversations, profiles, events and calls ----

  function Metas(mapping: Mapping): Rec -> seq<ConvMeta> {
    (r: Rec) => mapping.conversations(r.value)
  }

  function EntityOf(mapping: Mapping, e: Entity): Rec -> seq<Row> {
    (r: Rec) => mapping.rows(e, r)
  }

  lemma {:induction false} MetasGathered(mapping: Mapping, recs: seq<Rec>)
    ensures ConvRows(mapping, recs) == Gather(recs, Metas(mapping))
  {
    if recs != [] {
      MetasGathered(mapping, recs[..|recs| - 1]);
    }
  }

  lemma {:induction false} RowsGathered(mapping: Mapping, e: Entity, recs: seq<Rec>)
    ensures EntityRows(mapping, e, recs) == Gather(recs, EntityOf(mapping, e))
  {
    if recs != [] {
      RowsGathered(mapping, e, recs[..|recs| - 1]);
    }
  }

  /** The last value that counts in a list, by index. */
  ghost predicate LastIndex<T>(xs: seq<T>, counts: T -> bool, i: int) {
    0 <= i < |xs| && counts(xs[i]) && forall j :: i < j < |xs| ==> !counts(xs[j])
  }

  lemma {:induction false} LastMeta(metas: seq<ConvMeta>, id: string)
    ensures id in MetaOf(metas) <==> id != "" && exists m :: m in metas && m.id == id
    ensures id in MetaOf(metas) ==> exists i :: LastIndex(metas, Called(id), i) && MetaOf(metas)[id] == metas[i]
  {
    if metas != [] {
      var n := |metas| - 1;
      LastMeta(metas[..n], id);
      assert metas == metas[..n] + [metas[n]];
      if id in MetaOf(metas) {
        if metas[n].id == id {
          assert LastIndex(metas, Called(id), n);
        } else {
          var i :| LastIndex(metas[..n], Called(id), i) && MetaOf(metas[..n])[id] == metas[..n][i];
          assert LastIndex(metas, Called(id), i);
        }
      }
    }
  }

  function Called(id: string): ConvMeta -> bool {
    (m: ConvMeta) => m.id == id
  }

  /** A profile counts with an id and a name; any other row counts. */
  ghost predicate Counts(e: Entity, id: string, r: Row) {
    r.id == id && (e == ProfileEntity ==> id != "" && exists name: string, more :: name != "" && r.columns == [Some(name)] + more)
  }

  ghost function CountsAs(e: Entity, id: string): Row -> bool {
    (r: Row) => Counts(e, id, r)
  }

  lemma StorableCounts(e: Entity, r: Row)
    ensures Storable(e, r) <==> Counts(e, r.id, r)
  {
    if Storable(e, r) && e == ProfileEntity {
      assert r.columns == [Some(r.columns[0].value)] + r.columns[1..];
    }
  }

  lemma {:induction false} LastRow(e: Entity, rows: seq<Row>, id: string)
    ensures id in RowTable(e, rows) <==> exists r :: r in rows && Counts(e, id, r)
    ensures id in RowTable(e, rows) ==> exists i :: LastIndex(rows, CountsAs(e, id), i) && RowTable(e, rows)[id] == rows[i]
  {
    hide Storable, Counts;
    if rows != [] {
      var n := |rows| - 1;
      LastRow(e, rows[..n], id);
      StorableCounts(e, rows[n]);
      CountsCalled(e, id, rows[n]);
      assert rows == rows[..n] + [rows[n]];
      if id in RowTable(e, rows) {
        if Counts(e, id, rows[n]) {
          assert LastIndex(rows, CountsAs(e, id), n);
        } else {
          var i :| LastIndex(rows[..n], CountsAs(e, id), i) && RowTable(e, rows[..n])[id] == rows[..n][i];
          assert LastIndex(rows, CountsAs(e, id), i);
        }
      }
    }
  }

  lemma CountsCalled(e: Entity, id: string, r: Row)
    ensures Counts(e, id, r) ==> r.id == id
  {
  }

  /** A conversation has the columns of the last of its records. */
  lemma BuiltMetas(mapping: Mapping, snap: Snapshot, targets: seq<string>, id: string)
    ensures var t := ConvMetaOf(mapping, snap, targets);
      && (id in t <==> id != "" && exists p, x :: Stands(snap, targets, Metas(mapping), p, x) && x.id == id)
      && (id in t ==> IsLast(snap, targets, Metas(mapping), Called(id), t[id]))
  {
    hide Stands, Gather, MetaOf, Metas, Records, IsLast;
    var recs, f := Records(snap, targets), Metas(mapping);
    var xs := Gather(recs, f);
    MetasGathered(mapping, recs);
    LastMeta(xs, id);
    forall x
      ensures x in xs <==> exists p :: Stands(snap, targets, f, p, x)
    {
      GatheredStands(snap, targets, f, x);
    }
    if id in MetaOf(xs) {
      var i :| LastIndex(xs, Called(id), i) && MetaOf(xs)[id] == xs[i];
      LastPlaced(snap, targets, f, Called(id), i);
    }
  }

  /** A profile, event or call row is the last of its id that counts. */
  lemma BuiltRows(mapping: Mapping, snap: Snapshot, e: Entity, id: string)
    ensures var targets, t := Targets(mapping, snap, e), EntityTable(mapping, snap, e);
      && (id in t <==> exists p, x :: Stands(snap, targets, EntityOf(mapping, e), p, x) && Counts(e, id, x))
      && (id in t ==> IsLast(snap, targets, EntityOf(mapping, e), CountsAs(e, id), t[id]))
  {
    hide Stands, Gather, RowTable, EntityOf, Records, IsLast, Targets, Counts;
    var targets := Targets(mapping, snap, e);
    var recs, f := Records(snap, targets), EntityOf(mapping, e);
    var xs := Gather(recs, f);
    RowsGathered(mapping, e, recs);
    LastRow(e, xs, id);
    forall x
      ensures x in xs <==> exists p :: Stands(snap, targets, f, p, x)
    {
      GatheredStands(snap, targets, f, x);
    }
    if id in RowTable(e, xs) {
      var i :| LastIndex(xs, CountsAs(e, id), i) && RowTable(e, xs)[id] == xs[i];
      LastPlaced(snap, targets, f, CountsAs(e, id), i);
    }
  }

  // ---- stores, kinds and the search index ----

  /** The stores of an entity are those of the catalog that have a database and are selected, in dictionary order. */
  lemma TargetsAre(mapping: Mapping, snap: Snapshot, e: Entity)
    ensures forall sk :: sk in Targets(mapping, snap, e) <==>
      sk in snap.catalog && snap.catalog[sk].db.Some? && mapping.selects(e, snap.catalog[sk])
    ensures var ts := Targets(mapping, snap, e); forall i, j :: 0 <= i < j < |ts| ==> Precedes(ts[i], ts[j])
  {
    TextOrder();
    var ts := Targets(mapping, snap, e);
    forall i, j | 0 <= i < j < |ts|
      ensures Precedes(ts[i], ts[j])
    {
      TextLessIsDictionary(ts[i], ts[j]);
    }
  }

  ghost predicate Within(id: string, part: string) {
    exists before, after :: id == before + part + after
  }

  lemma IncludesIsWithin(id: string, part: string)
    ensures Includes(id, part) <==> Within(id, part)
  {
    if Includes(id, part) {
      var i :| 0 <= i <= |id| && StartsAt(id, part, i);
      assert id == id[..i] + part + id[i + |part|..];
    }
    if before, after :| id == before + part + after {
      assert id[|before|..] == part + after;
      assert StartsAt(id, part, |before|);
    }
  }

  /** The kind of a conversation is told by the first of these texts its id holds. */
  lemma KindIs(id: string)
    ensures ConvKind(id) == "1:1" <==> Within(id, "@unq.gbl.spaces")
    ensures ConvKind(id) == "meeting" <==> Within(id, "meeting_") && !Within(id, "@unq.gbl.spaces")
    ensures ConvKind(id) == "group" <==> Within(id, "@thread.v2") && !Within(id, "@unq.gbl.spaces") && !Within(id, "meeting_")
    ensures ConvKind(id) == "channel" <==>
      && (Within(id, "@thread.skype") || Within(id, "@thread.tacv2"))
      && !Within(id, "@unq.gbl.spaces") && !Within(id, "meeting_") && !Within(id, "@thread.v2")
    ensures ConvKind(id) in ["1:1", "meeting", "group", "channel", "other"]
  {
    hide Includes, Within;
    IncludesIsWithin(id, "@unq.gbl.spaces");
    IncludesIsWithin(id, "meeting_");
    IncludesIsWithin(id, "@thread.v2");
    IncludesIsWithin(id, "@thread.skype");
    IncludesIsWithin(id, "@thread.tacv2");
  }

  lemma {:induction false} OnceEach<T>(s: seq<T>, x: T)
    requires NoDup(s)
    ensures multiset(s)[x] == if x in s then 1 else 0
  {
    if s != [] {
      var n := |s| - 1;
      OnceEach(s[..n], x);
      assert s == s[..n] + [s[n]];
      assert x in s[..n] ==> x != s[n];
    }
  }

  /** The index holds each non-system message with content once, and nothing else. */
  lemma IndexHolds(fts: seq<FtsRow>, rows: set<Message>, content: string, convId: string, id: string)
    requires IsIndex(fts, rows)
    ensures multiset(fts)[FtsRow(content, convId, id)] ==
      if exists m :: m in rows && !m.isSystem && m.content == content != "" && m.convId == convId && m.id == id then 1 else 0
  {
    OnceEach(fts, FtsRow(content, convId, id));
    assert FtsRow(content, convId, id) in fts <==> FtsRow(content, convId, id) in Elems(fts);
  }

  /** The text names the shown senders, none of them the user; without an elected user only a sender without an id is left out. */
  ghost predicate Announces(rows: set<Message>, people: map<string, Person>, self: Option<string>, id: string, text: Option<string>,
                            shown: seq<string>) {
    var user := match self case Some(me) => me case None => "";
    var names := map mri | mri in people :: people[mri].name;
    Shows(rows, id, user, names, shown) && Spells(text, shown, names)
  }

  /** Every conversation of a build or an increment names those who spoke there last. */
  lemma ParticipantsAre(mapping: Mapping, self: Option<string>, snap: Snapshot, convTargets: seq<string>, book: map<string, string>,
                        indexed: bool, c: Contents, id: string)
    requires Follows(mapping, self, snap, convTargets, book, indexed, c) && id in c.conversations
    ensures exists shown :: Announces(c.messages.Values, c.people, self, id, c.conversations[id].participantNames, shown)
  {
    hide Shows, Spells, ParticipantNames, IsPeople, EntityTable, ConvMetaOf, IsIndex, HasMeta, ConvKind;
    var rows, names := c.messages.Values, NamesOfPeople(c.people);
    ParticipantsShown(rows, id, SelfText(self), names);
    var shown :| Shows(rows, id, SelfText(self), names, shown) && Spells(ParticipantNames(rows, id, SelfText(self), names), shown, names);
    assert Announces(rows, c.people, self, id, c.conversations[id].participantNames, shown);
  }

  ghost predicate SentBy(rows: set<Message>, mri: string, m: Message) {
    m in rows && !m.isSystem && m.senderMri == mri
  }

  ghost predicate SaidIn(rows: set<Message>, id: string, m: Message) {
    m in rows && !m.isSystem && m.convId == id
  }

  /** People are the senders of non-system messages, each with its handle, how many those are, when the newest was and the name it carries. */
  lemma PersonIs(mapping: Mapping, self: Option<string>, snap: Snapshot, convTargets: seq<string>, book: map<string, string>,
                 indexed: bool, c: Contents, mri: string)
    requires Follows(mapping, self, snap, convTargets, book, indexed, c)
    ensures var rows := c.messages.Values;
      && (mri in c.people <==> exists m :: SentBy(rows, mri, m))
      && (mri in c.people ==>
            var p := c.people[mri];
            && mri in book && p.handle == book[mri] && p.msgCount == |set m | m in rows && SentBy(rows, mri, m)|
            && (exists m :: SentBy(rows, mri, m) && m.ts == p.lastTs) && (forall m :: SentBy(rows, mri, m) ==> m.ts <= p.lastTs)
            && exists m :: SentBy(rows, mri, m) && m.senderName == p.name && NoneNewer(rows, mri, m))
  {
    hide EntityTable, ConvMetaOf, IsIndex, IsConversations, IsLatestName;
    var rows := c.messages.Values;
    assert From(rows, mri) == set m | m in rows && SentBy(rows, mri, m);
    if mri in c.people {
      LatestName(From(rows, mri), c.people[mri].name);
    }
  }

  /** No message of the sender is newer, ids deciding ties. */
  ghost predicate NoneNewer(rows: set<Message>, mri: string, m: Message) {
    forall n :: SentBy(rows, mri, n) ==> n.ts < m.ts || (n.ts == m.ts && !Precedes(m.id, n.id))
  }

  /** Conversations are those with a record or any message, each with its handle, its kind, its last record's columns, the number of its non-system
      messages and of their senders, and when the newest was. */
  lemma ConversationIs(mapping: Mapping, self: Option<string>, snap: Snapshot, convTargets: seq<string>, book: map<string, string>,
                       indexed: bool, c: Contents, id: string)
    requires Follows(mapping, self, snap, convTargets, book, indexed, c)
    ensures var rows := c.messages.Values;
      && (id in c.conversations <==>
          || (exists m :: m in rows && m.convId == id)
          || (id != "" && exists p, x :: Stands(snap, convTargets, Metas(mapping), p, x) && x.id == id))
      && (id in c.conversations ==>
            var v := c.conversations[id];
            && id in book && v.handle == book[id] && v.kind == ConvKind(id)
            && HasColumns(mapping, snap, convTargets, id, v) && IsActive(rows, id, v))
  {
    hide EntityTable, IsIndex, IsPeople, Stands, ParticipantNames, ConvKind, Metas, IsLast, ConvMetaOf;
    var rows := c.messages.Values;
    BuiltMetas(mapping, snap, convTargets, id);
    if id in c.conversations {
      ActiveIs(rows, id, c.conversations[id]);
    }
  }

  ghost predicate HasColumns(mapping: Mapping, snap: Snapshot, convTargets: seq<string>, id: string, v: Conversation) {
    if id != "" && exists p, x :: Stands(snap, convTargets, Metas(mapping), p, x) && x.id == id then
      exists x :: IsLast(snap, convTargets, Metas(mapping), Called(id), x)
        && v.topic == x.topic && v.teamId == x.teamId && v.threadType == x.threadType && v.metaLastTs == x.metaLastTs
    else v.topic == None && v.teamId == None && v.threadType == None && v.metaLastTs == 0
  }

  ghost predicate IsActive(rows: set<Message>, id: string, v: Conversation) {
    && v.msgCount == |set m | m in rows && SaidIn(rows, id, m)| && v.participantCount == |set m | m in rows && SaidIn(rows, id, m) :: m.senderMri|
    && (if exists m :: SaidIn(rows, id, m) then
          (exists m :: SaidIn(rows, id, m) && m.ts == v.activityTs) && forall m :: SaidIn(rows, id, m) ==> m.ts <= v.activityTs
        else v.activityTs == 0)
    && v.lastTs == if v.metaLastTs < v.activityTs then v.activityTs else v.metaLastTs
  }

  lemma ActiveIs(rows: set<Message>, id: string, v: Conversation)
    requires v.msgCount == |In(rows, id)| && v.participantCount == |Senders(In(rows, id))|
    requires v.activityTs == Activity(rows, id) && v.lastTs == Max(v.metaLastTs, Activity(rows, id))
    ensures IsActive(rows, id, v)
  {
    var here := In(rows, id);
    assert here == set m | m in rows && SaidIn(rows, id, m);
    assert Senders(here) == set m | m in rows && SaidIn(rows, id, m) :: m.senderMri;
    if m :| SaidIn(rows, id, m) {
      assert m in here;
    }
    if here == {} {
      assert forall m :: SaidIn(rows, id, m) ==> m in here;
    }
  }
}
