/** The log's logical history, the files that may represent it after compaction, and what a load can and
    cannot tell from sequence numbers and counts. */
module History {
  import opened Base
  import opened Source

  /** A put, or a delete when there is no value. */
  datatype Op = Op(key: Bytes, seqNo: nat, value: Option<Bytes>)

  /** Operations are numbered from 1 and never reuse a number. */
  ghost predicate Increasing(h: seq<Op>) {
    && (forall i :: 0 <= i < |h| ==> h[i].seqNo > 0)
    && (forall i, j :: 0 <= i < j < |h| ==> h[i].seqNo < h[j].seqNo)
  }

  lemma LiveIsNumbered(files: set<Op>, h: seq<Op>)
    requires Increasing(h) && files <= Elems(h)
    ensures forall r :: r in Live(files) ==> r.seqNo > 0
  {
    forall r | r in Live(files)
      ensures r.seqNo > 0
    {
      var o :| o in files && r.seqNo == o.seqNo;
      assert o in h;
    }
  }

  /** `o` is the newest operation of its key among `ops`. */
  ghost predicate Newest(ops: set<Op>, o: Op) {
    o in ops && forall p :: p in ops && p.key == o.key ==> p == o || p.seqNo < o.seqNo
  }

  /** Records whose newest operation is a put: LevelDB's own visibility rule, and what the loaders' dedup keeps. */
  ghost function Live(ops: set<Op>): set<Rec> {
    set o | o in ops && Newest(ops, o) && o.value.Some? :: Rec(o.key, o.seqNo, o.value.value)
  }

  ghost predicate IsMaxSeq(ops: set<Op>, n: nat) {
    && (forall o :: o in ops && Newest(ops, o) ==> o.seqNo <= n)
    && (n == 0 || exists o :: o in ops && Newest(ops, o) && o.seqNo == n)
  }

  /** What may be on disk for a history: any part of it that keeps every visible put, and that drops a
      newest delete only when nothing older of the key is left. */
  ghost predicate Represents(files: set<Op>, h: seq<Op>) {
    && files <= Elems(h)
    && forall o :: Newest(Elems(h), o) ==> o in files || (o.value.None? && forall p :: p in files ==> p.key != o.key)
  }

  lemma {:induction false} NewestExists(h: seq<Op>, o: Op)
    requires Increasing(h) && o in h
    ensures exists p :: Newest(Elems(h), p) && p.key == o.key && o.seqNo <= p.seqNo
  {
    var n := |h| - 1;
    var last := h[n];
    ElemsStep(h, n);
    ElemsAll(h);
    assert forall p :: p in h[..n] ==> p.seqNo < last.seqNo;
    if last.key == o.key {
      assert Newest(Elems(h), last);
    } else {
      assert o in Elems(h[..n]);
      NewestExists(h[..n], o);
      var p :| Newest(Elems(h[..n]), p) && p.key == o.key && o.seqNo <= p.seqNo;
      assert Newest(Elems(h), p);
    }
  }

  /** Compaction changes nothing visible: whatever is dropped, the live records are those of the history. */
  lemma CompactionKeepsLive(files: set<Op>, h: seq<Op>)
    requires Increasing(h) && Represents(files, h)
    ensures Live(files) == Live(Elems(h))
  {
    forall o | o in files
      ensures Newest(files, o) && o.value.Some? <==> Newest(Elems(h), o) && o.value.Some?
    {
      NewestExists(h, o);
      var p :| Newest(Elems(h), p) && p.key == o.key && o.seqNo <= p.seqNo;
      assert p in files;
    }
    assert forall o :: Newest(Elems(h), o) && o.value.Some? ==> o in files;
  }

  /** A record the extension wrote and that is still live is newer than everything before it. */
  lemma LiveAfterExtension(h: seq<Op>, ext: seq<Op>, r: Rec)
    requires Increasing(h + ext)
    ensures r in Live(Elems(h + ext)) <==>
      || (r in Live(Elems(h)) && forall o :: o in ext ==> o.key != r.key)
      || r in Live(Elems(ext))
    ensures r in Live(Elems(ext)) ==> forall o :: o in h ==> o.seqNo < r.seqNo
  {
    var all := h + ext;
    ElemsAppend(h, ext);
    OpsOrdered(h, ext);
    assert forall i :: 0 <= i < |h| ==> all[i] == h[i];
    if r in Live(Elems(all)) {
      var o :| o in Elems(all) && Newest(Elems(all), o) && o.value.Some? && r == Rec(o.key, o.seqNo, o.value.value);
      if o in ext {
        assert Newest(Elems(ext), o);
      } else {
        assert Newest(Elems(h), o);
      }
    }
    if r in Live(Elems(ext)) {
      var o :| o in Elems(ext) && Newest(Elems(ext), o) && o.value.Some? && r == Rec(o.key, o.seqNo, o.value.value);
      assert Newest(Elems(all), o);
    }
    if r in Live(Elems(h)) && forall o :: o in ext ==> o.key != r.key {
      var o :| o in Elems(h) && Newest(Elems(h), o) && o.value.Some? && r == Rec(o.key, o.seqNo, o.value.value);
      assert Newest(Elems(all), o);
    }
  }

  lemma OpsOrdered(h: seq<Op>, ext: seq<Op>)
    requires Increasing(h + ext)
    ensures Increasing(h) && Increasing(ext)
    ensures forall a, b :: a in h && b in ext ==> a.seqNo < b.seqNo
  {
    var all := h + ext;
    assert forall i :: 0 <= i < |h| ==> all[i] == h[i];
    assert forall i :: 0 <= i < |ext| ==> all[|h| + i] == ext[i];
  }

  // ---- what the refresh concludes from numbers ----

  /** A record at or below the floor of an earlier load is the record that load saw. */
  lemma FloorCarries(files0: set<Op>, h: seq<Op>, floor: nat, files1: set<Op>, ext: seq<Op>, r: Rec)
    requires Increasing(h + ext) && Represents(files0, h) && Represents(files1, h + ext)
    requires IsMaxSeq(files0, floor) && r in Live(files1) && r.seqNo <= floor
    ensures r in Live(files0)
  {
    OpsOrdered(h, ext);
    CompactionKeepsLive(files0, h);
    CompactionKeepsLive(files1, h + ext);
    LiveAfterExtension(h, ext, r);
    LiveIsNumbered(files1, h + ext);
    TopIsLogged(files0, h, floor);
  }

  lemma TopIsLogged(files: set<Op>, h: seq<Op>, maxSeq: nat)
    requires files <= Elems(h) && IsMaxSeq(files, maxSeq)
    ensures maxSeq == 0 || exists o :: o in h && o.seqNo == maxSeq
  {
    if maxSeq > 0 {
      var top :| top in files && Newest(files, top) && top.seqNo == maxSeq;
      assert top in h;
    }
  }

  ghost function Part(recs: set<Rec>, keys: Bytes -> bool): set<Rec> {
    set r | r in recs && keys(r.key)
  }

  ghost predicate IsLiveMax(recs: set<Rec>, n: nat) {
    && (forall r :: r in recs ==> r.seqNo <= n)
    && (n == 0 || exists r :: r in recs && r.seqNo == n)
  }

  lemma ExtensionIsNewer(h: seq<Op>, ext: seq<Op>, s: Rec, r: Rec)
    requires Increasing(h + ext)
    ensures s in Live(Elems(h)) && r in Live(Elems(ext)) ==> s.seqNo < r.seqNo
  {
    OpsOrdered(h, ext);
  }

  lemma LiveBound(files: set<Op>, n: nat)
    requires IsMaxSeq(files, n)
    ensures forall r :: r in Live(files) ==> r.seqNo <= n
  {
  }

  lemma SubsetByCount<T>(a: set<T>, b: set<T>)
    requires a <= b
    ensures a == b <==> |a| == |b|
  {
    var rest := b - a;
    assert b == a + rest && |b| == |a| + |rest|;
  }

  /** Main result for the unchanged-store skip: over any extension and any compaction, a store whose newest live sequence and
      live count are unchanged has the very same live records. */
  lemma SignatureDeterminesStore(files0: set<Op>, h: seq<Op>, files1: set<Op>, ext: seq<Op>, keys: Bytes -> bool, maxSeq: nat)
    requires Increasing(h + ext) && Represents(files0, h) && Represents(files1, h + ext)
    requires IsLiveMax(Part(Live(files0), keys), maxSeq) && IsLiveMax(Part(Live(files1), keys), maxSeq)
    requires |Part(Live(files0), keys)| == |Part(Live(files1), keys)|
    ensures Part(Live(files0), keys) == Part(Live(files1), keys)
  {
    hide Increasing, Represents, Newest, Live;
    OpsOrdered(h, ext);
    CompactionKeepsLive(files0, h);
    CompactionKeepsLive(files1, h + ext);
    var a, b := Part(Live(files0), keys), Part(Live(files1), keys);
    if a == {} {
      assert |b| == 0;
    } else {
      var s :| s in a && s.seqNo == maxSeq;
      forall r | r in b
        ensures r in a
      {
        LiveAfterExtension(h, ext, r);
        ExtensionIsNewer(h, ext, s, r);
      }
      SubsetByCount(b, a);
    }
  }

  /** Main result for the no-op exit: when the high-water mark did not move, nothing was added; the live records are the
      same iff every key the extension touched was already dead, iff the live count is the same. */
  lemma NoOpExitExact(files0: set<Op>, h: seq<Op>, files1: set<Op>, ext: seq<Op>, maxSeq: nat)
    requires Increasing(h + ext) && Represents(files0, h) && Represents(files1, h + ext)
    requires IsMaxSeq(files0, maxSeq) && IsMaxSeq(files1, maxSeq)
    ensures Live(files1) <= Live(files0)
    ensures Live(files1) == Live(files0) <==> forall o, r :: o in ext && r in Live(files0) ==> r.key != o.key
    ensures Live(files1) == Live(files0) <==> |Live(files1)| == |Live(files0)|
  {
    OpsOrdered(h, ext);
    CompactionKeepsLive(files0, h);
    CompactionKeepsLive(files1, h + ext);
    ElemsAppend(h, ext);
    LiveIsNumbered(files1, h + ext);
    TopIsLogged(files0, h, maxSeq);
    forall r
      ensures r !in Live(Elems(ext))
    {
      LiveAfterExtension(h, ext, r);
      LiveBound(files1, maxSeq);
    }
    forall r
      ensures r in Live(files1) <==> r in Live(files0) && forall o :: o in ext ==> o.key != r.key
    {
      LiveAfterExtension(h, ext, r);
    }
    SubsetByCount(Live(files1), Live(files0));
  }

  /** While the newest operation is still on disk, an unmoved high-water mark means nothing happened at all. */
  lemma NoOpExitSound(files0: set<Op>, h: seq<Op>, files1: set<Op>, ext: seq<Op>, maxSeq: nat)
    requires Increasing(h + ext) && Represents(files0, h) && Represents(files1, h + ext)
    requires IsMaxSeq(files0, maxSeq) && IsMaxSeq(files1, maxSeq)
    requires ext != [] ==> ext[|ext| - 1] in files1
    ensures ext == []
  {
    OpsOrdered(h, ext);
    var all := h + ext;
    TopIsLogged(files0, h, maxSeq);
    if ext != [] {
      assert all[|all| - 1] == ext[|ext| - 1];
      LastIsNewest(files1, all);
    }
  }

  lemma LastIsNewest(files: set<Op>, all: seq<Op>)
    requires Increasing(all) && files <= Elems(all) && all != []
    ensures all[|all| - 1] in files ==> Newest(files, all[|all| - 1])
  {
    var last := all[|all| - 1];
    forall p | p in files
      ensures p == last || p.seqNo < last.seqNo
    {
      var i :| 0 <= i < |all| && all[i] == p;
    }
  }

  /** The run the no-op exit misses: put a, put b; load; delete a, then a compaction elides a's tombstone and put.
      The high-water mark is b's in both loads, yet a is gone. */
  lemma ElidedTombstone()
    ensures var a, b, d := Op([1], 1, Some([1])), Op([2], 2, Some([3])), Op([1], 3, None);
      && Increasing([a, b] + [d])
      && Represents({a, b}, [a, b]) && Represents({b}, [a, b] + [d])
      && IsMaxSeq({a, b}, 2) && IsMaxSeq({b}, 2)
      && Live({b}) != Live({a, b})
  {
    var a, b, d := Op([1], 1, Some([1])), Op([2], 2, Some([3])), Op([1], 3, None);
    var h := [a, b] + [d];
    assert h == [a, b, d];
    assert Elems([a, b]) == {a, b} && Elems(h) == {a, b, d};
    assert Newest({a, b}, a) && Newest({a, b}, b) && Newest({b}, b);
    assert !Newest({a, b, d}, a);
    var r := Rec([1], 1, [1]);
    assert r in Live({a, b});
    assert r !in Live({b});
  }
}
