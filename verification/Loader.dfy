/** From a directory of tables and logs to a snapshot: the three loaders fold the same entries, so what is proved of folds and of loads
    holds of every one of them, cached or cold. */
module Loaders {
  import opened Base
  import opened Source
  import opened Wal
  import opened Dedups
  import opened LdbCaches
  import opened Refresh
  import opened Load

  // ---- the entries of a directory ----

  function LdbEntries(contents: Contents, files: seq<FileId>): seq<Entry> {
    if files == [] then []
    else
      var res := contents(files[|files| - 1]);
      LdbEntries(contents, files[..|files| - 1]) + (if res.Table? then TableEntries(res.entries) else [])
  }

  function LogEntries(logs: seq<Option<seq<WalBatch>>>): seq<Entry> {
    if logs == [] then []
    else
      var log := logs[|logs| - 1];
      LogEntries(logs[..|logs| - 1]) + (if log.Some? then BatchesEntries(log.value) else [])
  }

  /** Everything that can be read of a directory: tables in name order, then logs. */
  function DirEntries(contents: Contents, dir: Directory): seq<Entry> {
    LdbEntries(contents, dir.ldb) + LogEntries(dir.logs)
  }

  lemma {:induction false} LdbFold(contents: Contents, files: seq<FileId>)
    ensures var st := FoldLdb(contents, files);
      st.order == FoldEntries([], LdbEntries(contents, files)) && st.raw == |LdbEntries(contents, files)|
  {
    if files != [] {
      var n := |files| - 1;
      LdbFold(contents, files[..n]);
      var res := contents(files[n]);
      FoldEntriesAppend([], LdbEntries(contents, files[..n]), if res.Table? then TableEntries(res.entries) else []);
    }
  }

  lemma {:induction false} LogFold(st: Folded, logs: seq<Option<seq<WalBatch>>>)
    ensures var r := FoldLogs(st, logs);
      r.order == FoldEntries(st.order, LogEntries(logs)) && r.raw == st.raw + |LogEntries(logs)|
  {
    if logs != [] {
      var n := |logs| - 1;
      LogFold(st, logs[..n]);
      FoldEntriesAppend(st.order, LogEntries(logs[..n]), if logs[n].Some? then BatchesEntries(logs[n].value) else []);
    }
  }

  /** Main result: what a loader folds, file by file, is the fold of the directory's entries. */
  lemma DirectoryFold(contents: Contents, dir: Directory)
    ensures var st := ColdFold(contents, dir);
      st.order == FoldEntries([], DirEntries(contents, dir)) && st.raw == |DirEntries(contents, dir)|
  {
    LdbFold(contents, dir.ldb);
    LogFold(FoldLdb(contents, dir.ldb), dir.logs);
    FoldEntriesAppend([], LdbEntries(contents, dir.ldb), LogEntries(dir.logs));
  }

  /** However a log's entries are split and ordered over tables and logs, the same records survive a load. */
  lemma DirectoryLayout(contents0: Contents, dir0: Directory, contents1: Contents, dir1: Directory)
    requires Consistent(DirEntries(contents0, dir0))
    requires forall e :: e in DirEntries(contents0, dir0) <==> e in DirEntries(contents1, dir1)
    ensures Elems(ColdFold(contents0, dir0).order) == Elems(ColdFold(contents1, dir1).order)
  {
    DirectoryFold(contents0, dir0);
    DirectoryFold(contents1, dir1);
    LayoutIrrelevant(DirEntries(contents0, dir0), DirEntries(contents1, dir1));
  }

  /** A compaction that drops shadowed entries, wherever it puts the others, changes no survivor. */
  lemma CompactedDirectory(contents0: Contents, dir0: Directory, contents1: Contents, dir1: Directory)
    requires Consistent(DirEntries(contents0, dir0))
    requires forall e :: e in DirEntries(contents1, dir1) ==> e in DirEntries(contents0, dir0)
    requires forall e :: e in Survivors(DirEntries(contents0, dir0)) ==> e in DirEntries(contents1, dir1)
    ensures Elems(ColdFold(contents1, dir1).order) == Elems(ColdFold(contents0, dir0).order)
  {
    DirectoryFold(contents0, dir0);
    DirectoryFold(contents1, dir1);
    DroppingShadowed(DirEntries(contents0, dir0), DirEntries(contents1, dir1));
  }

  /** Some table is unreadable, was read only in part or has a key too short for its trailer, or some log could not be parsed. */
  ghost predicate SomethingUnread(contents: Contents, dir: Directory) {
    || (exists f :: f in dir.ldb && (contents(f).Unreadable? || contents(f).lossy || exists e :: e in contents(f).entries && |e.0| < 8))
    || (exists log :: log in dir.logs && log.None?)
  }

  lemma {:induction false} LogsLossy(st: Folded, logs: seq<Option<seq<WalBatch>>>)
    ensures FoldLogs(st, logs).lossy <==> st.lossy || exists log :: log in logs && log.None?
  {
    if logs != [] {
      LogsLossy(st, logs[..|logs| - 1]);
      assert logs == logs[..|logs| - 1] + [logs[|logs| - 1]];
    }
  }

  /** A load is lossy exactly when something could not be read. */
  lemma LossyIffUnread(contents: Contents, dir: Directory)
    ensures ColdFold(contents, dir).lossy <==> SomethingUnread(contents, dir)
  {
    CleanFold(contents, dir.ldb);
    LogsLossy(FoldLdb(contents, dir.ldb), dir.logs);
    forall f | f in dir.ldb
      ensures !Clean(contents(f)) <==> contents(f).Unreadable? || contents(f).lossy || exists e :: e in contents(f).entries && |e.0| < 8
    {
      if contents(f).Table? && HasShort(contents(f).entries) {
        var i :| 0 <= i < |contents(f).entries| && |contents(f).entries[i].0| < 8;
        assert contents(f).entries[i] in contents(f).entries;
      }
    }
  }

  // ---- snapshots ----

  /** `snap` groups the cold fold of the directory. It has one record per key and, as a log has one entry per key and number, lists
      exactly what is live among the entries that could be read. */
  ghost predicate IsSnapshotOf(snap: Snapshot, contents: Contents, dir: Directory, bucketOf: BucketOf,
                               names: seq<Entry> -> map<string, StoreName>) {
    var es, st := DirEntries(contents, dir), ColdFold(contents, dir);
    && (forall sk :: Bucket(snap, sk) == StoreRecords(st.order, bucketOf, sk))
    && snap.maxSeq == HighWater(st.order) && snap.catalog == names(st.order) && (snap.lossy <==> SomethingUnread(contents, dir)) && OnePerKey(snap)
    && (Consistent(es) ==> Lists(snap, OpsOf(es), bucketOf))
    && (Consistent(es) && !snap.lossy ==> Loads(snap, OpsOf(es), bucketOf))
  }

  method Collect(d: Dedup, ghost contents: Contents, ghost dir: Directory, bucketOf: BucketOf,
                 names: seq<Entry> -> map<string, StoreName>)
    returns (snap: Snapshot)
    requires d.View() == ColdFold(contents, dir)
    ensures IsSnapshotOf(snap, contents, dir, bucketOf, names)
  {
    hide StoreRecords, HighWater, Lists, OpsOf, Consistent, OnePerKey, UniqueEntryKeys, Bucket, SomethingUnread;
    LossyIffUnread(contents, dir);
    snap := CollectSnapshot(d.order, d.lossy, bucketOf, names);
    DirectoryFold(contents, dir);
    FoldBest(DirEntries(contents, dir), []);
    CollectedOnce(d.order, snap, bucketOf);
    if Consistent(DirEntries(contents, dir)) {
      CollectLoads(DirEntries(contents, dir), snap, bucketOf);
    }
  }

  /** The loader without a cache. */
  method LoadSnapshot(contents: Contents, dir: Directory, bucketOf: BucketOf, names: seq<Entry> -> map<string, StoreName>)
    returns (snap: Snapshot)
    ensures IsSnapshotOf(snap, contents, dir, bucketOf, names)
  {
    hide IsSnapshotOf;
    var d := BuildDedupMap(contents, dir);
    snap := Collect(d, contents, dir, bucketOf, names);
  }

  /** The loader over a folded prefix. */
  method LoadSnapshotReuse(cache: LdbCache, dir: Directory, bucketOf: BucketOf, names: seq<Entry> -> map<string, StoreName>)
    returns (snap: Snapshot, compacted: bool)
    requires cache.Valid()
    modifies cache, cache.Owned()
    ensures cache.Valid() && IsSnapshotOf(snap, cache.contents, dir, bucketOf, names)
    ensures compacted <==> old(cache.folded).Some? &&
                           exists c :: c in old(cache.folded).value.covered && forall f :: f in dir.ldb ==> f.0 != c.0
  {
    hide IsSnapshotOf;
    var d;
    d, compacted := cache.BuildReuse(dir);
    snap := Collect(d, cache.contents, dir, bucketOf, names);
  }

  /** The loader over parsed tables. */
  method LoadSnapshotParsed(cache: TableCache, dir: Directory, sizes: FileId -> Sizes, bucketOf: BucketOf,
                            names: seq<Entry> -> map<string, StoreName>)
    returns (snap: Snapshot, compacted: bool)
    requires cache.Valid()
    modifies cache
    ensures cache.Valid() && IsSnapshotOf(snap, cache.contents, dir, bucketOf, names)
    ensures compacted <==> exists n :: n in old(cache.parsed) && n !in FileNames(dir.ldb)
  {
    hide IsSnapshotOf;
    var d;
    d, compacted := cache.BuildReuseMap(dir, sizes);
    snap := Collect(d, cache.contents, dir, bucketOf, names);
  }
}
