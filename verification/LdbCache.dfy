/** Loading a directory of tables and logs, cold and with the caches that avoid re-reading what cannot have changed. */
module LdbCaches {
  import opened Base
  import opened Source
  import opened Dedups
  import opened Wal
  import LittleEndian

  const TRAILER := 8

  /** A table file is identified by name and size: tables are written once and their numbers never reused. */
  type FileId = (string, nat)

  datatype ReadResult = Unreadable | Table(entries: seq<(Bytes, Bytes)>, lossy: bool)

  /** What each (name, size) holds. */
  type Contents = FileId -> ReadResult

  /** A directory at one moment: its tables in name order, and what its logs parse to. */
  datatype Directory = Directory(ldb: seq<FileId>, logs: seq<Option<seq<WalBatch>>>)

  // ---- entries ----

  /** User key, then type, then the 56-bit little-endian sequence. */
  function DecodeEntry(ikey: Bytes, value: Bytes): Entry
    requires |ikey| >= TRAILER
  {
    var n := |ikey| - TRAILER;
    Entry(ikey[..n], LittleEndian.Decode(ikey[n + 1..]), ikey[n], value)
  }

  function EncodeKey(key: Bytes, seqNo: nat, rtype: Byte): Bytes {
    key + [rtype] + LittleEndian.Encode(seqNo, 7)
  }

  lemma TrailerRoundTrip(key: Bytes, seqNo: nat, rtype: Byte, value: Bytes)
    requires seqNo < LittleEndian.Pow256(7)
    ensures |EncodeKey(key, seqNo, rtype)| >= TRAILER
    ensures DecodeEntry(EncodeKey(key, seqNo, rtype), value) == Entry(key, seqNo, rtype, value)
  {
    LittleEndian.RoundTrip(seqNo, 7);
    var k := EncodeKey(key, seqNo, rtype);
    assert k[|key| + 1..] == LittleEndian.Encode(seqNo, 7) && k[..|key|] == key;
  }

  function TableEntries(entries: seq<(Bytes, Bytes)>): seq<Entry> {
    if entries == [] then []
    else
      var rest, e := TableEntries(entries[..|entries| - 1]), entries[|entries| - 1];
      if |e.0| < TRAILER then rest else rest + [DecodeEntry(e.0, e.1)]
  }

  predicate HasShort(entries: seq<(Bytes, Bytes)>) {
    exists i | 0 <= i < |entries| :: |entries[i].0| < TRAILER
  }

  /** A put without bytes and a delete both carry the empty value; the type tells them apart. */
  function OpEntries(sequence: nat, ops: seq<WalOp>): seq<Entry> {
    if ops == [] then []
    else
      var n := |ops| - 1;
      var op := ops[n];
      OpEntries(sequence, ops[..n]) + [Entry(op.key, sequence + n, op.opType, if op.value.Some? then op.value.value else [])]
  }

  function BatchesEntries(batches: seq<WalBatch>): seq<Entry> {
    if batches == [] then []
    else BatchesEntries(batches[..|batches| - 1]) + OpEntries(batches[|batches| - 1].sequence, batches[|batches| - 1].ops)
  }

  // ---- the cold fold ----

  function Feed(st: Folded, es: seq<Entry>): Folded {
    Folded(FoldEntries(st.order, es), st.raw + |es|, st.lossy)
  }

  predicate Clean(res: ReadResult) {
    res.Table? && !res.lossy && !HasShort(res.entries)
  }

  function FoldFile(st: Folded, res: ReadResult): Folded {
    var fed := if res.Table? then Feed(st, TableEntries(res.entries)) else st;
    if Clean(res) then fed else fed.(lossy := true)
  }

  function FoldLdb(contents: Contents, files: seq<FileId>): Folded {
    if files == [] then NOTHING else FoldFile(FoldLdb(contents, files[..|files| - 1]), contents(files[|files| - 1]))
  }

  function FoldLogs(st: Folded, logs: seq<Option<seq<WalBatch>>>): Folded {
    if logs == [] then st
    else
      var p, log := FoldLogs(st, logs[..|logs| - 1]), logs[|logs| - 1];
      if log.Some? then Feed(p, BatchesEntries(log.value)) else p.(lossy := true)
  }

  /** Every table in name order, then every log. */
  function ColdFold(contents: Contents, dir: Directory): Folded {
    FoldLogs(FoldLdb(contents, dir.ldb), dir.logs)
  }

  lemma FoldLdbStep(contents: Contents, files: seq<FileId>, i: nat)
    requires i < |files|
    ensures FoldLdb(contents, files[..i + 1]) == FoldFile(FoldLdb(contents, files[..i]), contents(files[i]))
  {
    assert files[..i + 1][..i] == files[..i];
  }

  lemma FoldLogsStep(st: Folded, logs: seq<Option<seq<WalBatch>>>, i: nat)
    requires i < |logs|
    ensures FoldLogs(st, logs[..i + 1]) ==
      if logs[i].Some? then Feed(FoldLogs(st, logs[..i]), BatchesEntries(logs[i].value)) else FoldLogs(st, logs[..i]).(lossy := true)
  {
    assert logs[..i + 1][..i] == logs[..i];
  }

  /** Lossiness is never forgotten: a clean fold read only clean files. */
  lemma {:induction false} CleanFold(contents: Contents, files: seq<FileId>)
    ensures FoldLdb(contents, files).lossy <==> exists f :: f in files && !Clean(contents(f))
  {
    if files != [] {
      CleanFold(contents, files[..|files| - 1]);
      assert files == files[..|files| - 1] + [files[|files| - 1]];
    }
  }

  // ---- reading ----

  /** Fold one table; true means it was short, lossy or unreadable. */
  method FoldTable(res: ReadResult, d: Dedup) returns (bad: bool)
    requires d.Valid() && d.seqCap.None?
    modifies d
    ensures d.Valid() && bad == !Clean(res)
    ensures d.View() == if res.Table? then Feed(old(d.View()), TableEntries(res.entries)) else old(d.View())
  {
    if res.Unreadable? {
      return true;
    }
    d.FoldAll(TableEntries(res.entries));
    bad := res.lossy || HasShort(res.entries);
  }

  method FoldAllLdb(contents: Contents, files: seq<FileId>) returns (d: Dedup)
    ensures fresh(d) && d.Valid() && d.seqCap.None? && d.View() == FoldLdb(contents, files)
  {
    d := new Dedup(None);
    for i := 0 to |files|
      invariant fresh(d) && d.Valid() && d.seqCap.None? && d.View() == FoldLdb(contents, files[..i])
    {
      FoldLdbStep(contents, files, i);
      var bad := FoldTable(contents(files[i]), d);
      if bad {
        d.lossy := true;
      }
    }
    assert files[..|files|] == files;
  }

  method FoldAllLogs(logs: seq<Option<seq<WalBatch>>>, d: Dedup)
    requires d.Valid() && d.seqCap.None?
    modifies d
    ensures d.Valid() && d.View() == FoldLogs(old(d.View()), logs)
  {
    for i := 0 to |logs|
      invariant d.Valid() && d.View() == FoldLogs(old(d.View()), logs[..i])
    {
      FoldLogsStep(old(d.View()), logs, i);
      if logs[i].Some? {
        d.FoldAll(BatchesEntries(logs[i].value));
      } else {
        d.lossy := true;
      }
    }
    assert logs[..|logs|] == logs;
  }

  method BuildDedupMap(contents: Contents, dir: Directory) returns (d: Dedup)
    ensures fresh(d) && d.Valid() && d.View() == ColdFold(contents, dir)
  {
    d := FoldAllLdb(contents, dir.ldb);
    FoldAllLogs(dir.logs, d);
  }

  // ---- the native cache: a folded prefix ----

  predicate IsPositionalPrefix(covered: seq<FileId>, current: seq<FileId>) {
    covered <= current
  }

  predicate CoveredNameVanished(covered: seq<FileId>, current: seq<FileId>) {
    exists c | c in covered :: forall f | f in current :: f.0 != c.0
  }

  datatype FoldedPrefix = FoldedPrefix(dedup: Dedup, covered: seq<FileId>)

  class LdbCache {
    const contents: Contents
    var folded: Option<FoldedPrefix>
    var prefixRecordsReused: nat

    /** The objects the cache may change. */
    ghost function Owned(): set<object>
      reads this
    {
      if folded.Some? then {folded.value.dedup} else {}
    }

    /** A cached prefix is the clean fold of exactly the tables it covers; no log record ever enters it. */
    ghost predicate Valid()
      reads this, Owned()
    {
      folded.Some? ==>
        && folded.value.dedup.Valid() && folded.value.dedup.seqCap.None?
        && folded.value.dedup.View() == FoldLdb(contents, folded.value.covered)
        && !folded.value.dedup.lossy
    }

    constructor (contents: Contents)
      ensures Valid() && folded.None? && this.contents == contents && prefixRecordsReused == 0
    {
      this.contents := contents;
      folded, prefixRecordsReused := None, 0;
    }

    /** Fold the current tables afresh and remember the fold if it is clean. */
    method Rebuild(ldb: seq<FileId>) returns (d: Dedup)
      modifies this
      ensures Valid() && fresh(d) && d.Valid() && d.seqCap.None? && d.View() == FoldLdb(contents, ldb)
      ensures folded.Some? <==> !d.lossy
      ensures folded.Some? ==> folded.value.covered == ldb && fresh(folded.value.dedup) && folded.value.dedup != d
    {
      d := FoldAllLdb(contents, ldb);
      folded := None;
      if !d.lossy {
        var kept := new Dedup.Clone(d);
        folded := Some(FoldedPrefix(kept, ldb));
      }
    }

    /** Fold the tables after the covered ones into the cached prefix; stops at the first that is not clean. */
    method AdvancePrefix(fp: FoldedPrefix, ldb: seq<FileId>) returns (lossyTail: bool, covered: seq<FileId>)
      requires fp.dedup.Valid() && fp.dedup.seqCap.None? && fp.dedup.View() == FoldLdb(contents, fp.covered) && !fp.dedup.lossy
      requires fp.covered <= ldb
      modifies fp.dedup
      ensures lossyTail <==> exists f :: f in ldb && !Clean(contents(f))
      ensures !lossyTail ==> covered == ldb && fp.dedup.Valid() && fp.dedup.View() == FoldLdb(contents, ldb) && !fp.dedup.lossy
    {
      covered, lossyTail := fp.covered, false;
      var i := |fp.covered|;
      CleanFold(contents, fp.covered);
      while i < |ldb|
        invariant |fp.covered| <= i <= |ldb| && covered == ldb[..i]
        invariant fp.dedup.Valid() && fp.dedup.View() == FoldLdb(contents, covered) && !fp.dedup.lossy
      {
        FoldLdbStep(contents, ldb, i);
        var bad := FoldTable(contents(ldb[i]), fp.dedup);
        if bad {
          assert ldb[i] in ldb;
          return true, covered;
        }
        covered := covered + [ldb[i]];
        i := i + 1;
      }
      assert ldb[..i] == ldb;
      CleanFold(contents, ldb);
    }

    /** One tick. Whatever the cache holds, the result is the cold fold of the directory; a compaction is reported iff a
        covered file vanished; the result shares nothing with the cache. */
    method BuildReuse(dir: Directory) returns (d: Dedup, compacted: bool)
      requires Valid()
      modifies this, Owned()
      ensures Valid() && fresh(d) && d.Valid() && d !in Owned()
      ensures d.View() == ColdFold(contents, dir)
      ensures compacted <==> old(folded).Some? && CoveredNameVanished(old(folded).value.covered, dir.ldb)
      ensures fresh(Owned() - old(Owned()))
      ensures folded.Some? ==> folded.value.covered == dir.ldb
      ensures folded.Some? <==> !FoldLdb(contents, dir.ldb).lossy
    {
      var ldb, taken := dir.ldb, folded;
      compacted := false;
      if taken.Some? && CoveredNameVanished(taken.value.covered, ldb) {
        d := Rebuild(ldb);
        compacted := true;
      } else if taken.Some? && IsPositionalPrefix(taken.value.covered, ldb) {
        folded := None;
        var lossyTail, covered := AdvancePrefix(taken.value, ldb);
        CleanFold(contents, ldb);
        if lossyTail {
          d := FoldAllLdb(contents, ldb);
        } else {
          prefixRecordsReused := prefixRecordsReused + |taken.value.dedup.order|;
          d := new Dedup.Clone(taken.value.dedup);
          folded := Some(FoldedPrefix(taken.value.dedup, covered));
        }
      } else {
        d := Rebuild(ldb);
      }
      FoldAllLogs(dir.logs, d);
    }
  }

  // ---- the JS cache: parsed tables by file name ----

  /** Whether a file's size can be read when a cached parse is looked at, and when a fresh one is to be stored. */
  datatype Sizes = Sizes(atHit: bool, atStore: bool)

  class TableCache {
    const contents: Contents
    var parsed: map<string, (ReadResult, nat)>

    /** Only clean parses are cached, each with the size it was read at. */
    ghost predicate Valid()
      reads this
    {
      forall n :: n in parsed ==> parsed[n].0 == contents((n, parsed[n].1)) && parsed[n].0.Table? && !parsed[n].0.lossy
    }

    constructor (contents: Contents)
      ensures Valid() && parsed == map[] && this.contents == contents
    {
      this.contents := contents;
      parsed := map[];
    }

    /** A cached parse of the file at its current size, or a fresh one, cached when clean. A size that cannot be read is no hit, and
        nothing is cached without one; an entry that was passed over stays. */
    method ReadTable(f: FileId, sizes: Sizes) returns (res: ReadResult)
      requires Valid()
      modifies this
      ensures Valid() && res == contents(f)
      ensures parsed == if sizes.atStore && res.Table? && !res.lossy then old(parsed)[f.0 := (res, f.1)] else old(parsed)
    {
      if f.0 in parsed && sizes.atHit && parsed[f.0].1 == f.1 {
        assert parsed[f.0 := parsed[f.0]] == parsed;
        return parsed[f.0].0;
      }
      res := contents(f);
      if res.Table? && !res.lossy && sizes.atStore {
        parsed := parsed[f.0 := (res, f.1)];
      }
    }

    method ReadTables(ldb: seq<FileId>, sizes: FileId -> Sizes) returns (d: Dedup)
      requires Valid()
      modifies this
      ensures Valid() && fresh(d) && d.Valid() && d.seqCap.None? && d.View() == FoldLdb(contents, ldb)
    {
      d := new Dedup(None);
      for i := 0 to |ldb|
        invariant Valid() && fresh(d) && d.Valid() && d.seqCap.None? && d.View() == FoldLdb(contents, ldb[..i])
      {
        FoldLdbStep(contents, ldb, i);
        var res := ReadTable(ldb[i], sizes(ldb[i]));
        var bad := FoldTable(res, d);
        if bad {
          d.lossy := true;
        }
      }
      assert ldb[..|ldb|] == ldb;
    }

    /** One load: the cold fold of the directory; compacted iff a cached file vanished; vanished files leave the cache. */
    method BuildReuseMap(dir: Directory, sizes: FileId -> Sizes) returns (d: Dedup, compacted: bool)
      requires Valid()
      modifies this
      ensures Valid() && fresh(d) && d.Valid() && d.View() == ColdFold(contents, dir)
      ensures compacted <==> exists n :: n in old(parsed) && n !in FileNames(dir.ldb)
      ensures parsed.Keys <= FileNames(dir.ldb)
    {
      var now := FileNames(dir.ldb);
      compacted := exists n | n in parsed :: n !in now;
      d := ReadTables(dir.ldb, sizes);
      parsed := map n | n in parsed && n in now :: parsed[n];
      FoldAllLogs(dir.logs, d);
    }
  }

  function FileNames(files: seq<FileId>): set<string> {
    set f | f in files :: f.0
  }
}
