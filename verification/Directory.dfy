/** A log's history written into a directory, tables and logs down to the bytes of the logs, and the loaders as its inverse. */
module Directories {
  import opened Base
  import opened Source
  import opened History
  import opened Wal
  import opened Dedups
  import opened LdbCaches
  import opened Refresh
  import opened Load
  import opened Loaders
  import LittleEndian
  import WalWriter

  // ---- written forms ----

  /** How an operation reaches a fold: a put is of type 1, a delete of type 0 and without bytes. */
  function EntryOf(o: Op): Entry {
    match o.value
    case Some(v) => Entry(o.key, o.seqNo, 1, v)
    case None => Entry(o.key, o.seqNo, 0, [])
  }

  function EntriesOf(ops: seq<Op>): (es: seq<Entry>)
    ensures |es| == |ops|
  {
    seq(|ops|, i requires 0 <= i < |ops| => EntryOf(ops[i]))
  }

  /** A table line: the key with its trailer, and the value. */
  function Line(o: Op): (Bytes, Bytes) {
    (o.key + [if o.value.Some? then 1 else 0] + LittleEndian.Encode(o.seqNo, 7), if o.value.Some? then o.value.value else [])
  }

  function Lines(ops: seq<Op>): (lines: seq<(Bytes, Bytes)>)
    ensures |lines| == |ops|
  {
    seq(|ops|, i requires 0 <= i < |ops| => Line(ops[i]))
  }

  function WalOpOf(o: Op): WalOp {
    WalOp(if o.value.Some? then 1 else 0, o.key, o.value)
  }

  /** A batch carries the number of its first operation. */
  function BatchWith(ops: seq<Op>): WalBatch
    requires ops != []
  {
    WalBatch(ops[0].seqNo, seq(|ops|, i requires 0 <= i < |ops| => WalOpOf(ops[i])))
  }

  function BatchesWith(parts: seq<seq<Op>>): seq<WalBatch>
    requires forall i :: 0 <= i < |parts| ==> parts[i] != []
  {
    if parts == [] then []
    else BatchesWith(parts[..|parts| - 1]) + [BatchWith(parts[|parts| - 1])]
  }

  function Flat<T>(parts: seq<seq<T>>): seq<T> {
    if parts == [] then [] else Flat(parts[..|parts| - 1]) + parts[|parts| - 1]
  }

  /** Each batch is not empty and numbered without gaps. */
  ghost predicate Gapless(log: seq<seq<Op>>) {
    forall j :: 0 <= j < |log| ==> log[j] != [] && forall i :: 0 <= i < |log[j]| ==> log[j][i].seqNo == log[j][0].seqNo + i
  }

  ghost predicate Fits(ck: Checksum, log: seq<seq<Op>>) {
    Gapless(log) && forall b :: b in BatchesWith(log) ==> WalWriter.Writable(b)
  }

  /** The tables hold `tables`, operation by operation, and the logs are the bytes written for `logs`, batch by batch. */
  ghost predicate Holds(contents: Contents, dir: Directory, ck: Checksum, tables: seq<seq<Op>>, logs: seq<seq<seq<Op>>>) {
    && |dir.ldb| == |tables| && |dir.logs| == |logs|
    && (forall i :: 0 <= i < |tables| ==> contents(dir.ldb[i]) == Table(Lines(tables[i]), false))
    && (forall i, o :: 0 <= i < |tables| && o in tables[i] ==> o.seqNo < LittleEndian.Pow256(7))
    && (forall i :: 0 <= i < |logs| ==>
          Fits(ck, logs[i]) && dir.logs[i] == Some(Parse(ck, WalWriter.WriteLog(ck, WalWriter.Encoded(BatchesWith(logs[i])), 0))))
  }

  /** Everything written, in the order the loaders meet it. */
  function AllOps(tables: seq<seq<Op>>, logs: seq<seq<seq<Op>>>): seq<Op> {
    Flat(tables) + Flat(Flat(logs))
  }

  // ---- what is read back ----

  lemma EntriesAppend(a: seq<Op>, b: seq<Op>)
    ensures EntriesOf(a + b) == EntriesOf(a) + EntriesOf(b)
  {
  }

  lemma LineReadsBack(o: Op)
    requires o.seqNo < LittleEndian.Pow256(7)
    ensures |Line(o).0| >= TRAILER && DecodeEntry(Line(o).0, Line(o).1) == EntryOf(o)
  {
    TrailerRoundTrip(o.key, o.seqNo, if o.value.Some? then 1 else 0, Line(o).1);
    assert Line(o).0 == EncodeKey(o.key, o.seqNo, if o.value.Some? then 1 else 0);
  }

  lemma {:induction false} LinesReadBack(ops: seq<Op>)
    requires forall o :: o in ops ==> o.seqNo < LittleEndian.Pow256(7)
    ensures TableEntries(Lines(ops)) == EntriesOf(ops) && !HasShort(Lines(ops))
  {
    hide Line, EntryOf, DecodeEntry;
    forall i | 0 <= i < |ops|
      ensures |Lines(ops)[i].0| >= TRAILER
    {
      LineReadsBack(ops[i]);
    }
    if ops != [] {
      var n := |ops| - 1;
      LinesReadBack(ops[..n]);
      LineReadsBack(ops[n]);
      assert Lines(ops)[..n] == Lines(ops[..n]);
    }
  }

  /** Operation `i` of a batch is numbered `i` after the batch, with its own key, type and value. */
  lemma {:induction false} OpEntry(sequence: nat, ops: seq<WalOp>, i: nat)
    requires i < |ops|
    ensures |OpEntries(sequence, ops)| == |ops|
    ensures OpEntries(sequence, ops)[i] ==
      Entry(ops[i].key, sequence + i, ops[i].opType, match ops[i].value case Some(v) => v case None => [])
  {
    OpCount(sequence, ops);
    var n := |ops| - 1;
    OpCount(sequence, ops[..n]);
    if i < n {
      OpEntry(sequence, ops[..n], i);
    }
  }

  lemma {:induction false} OpCount(sequence: nat, ops: seq<WalOp>)
    ensures |OpEntries(sequence, ops)| == |ops|
  {
    if ops != [] {
      OpCount(sequence, ops[..|ops| - 1]);
    }
  }

  lemma BatchReadsBack(ops: seq<Op>)
    requires ops != [] && forall i :: 0 <= i < |ops| ==> ops[i].seqNo == ops[0].seqNo + i
    ensures var b := BatchWith(ops); OpEntries(b.sequence, b.ops) == EntriesOf(ops)
  {
    hide OpEntries;
    var b := BatchWith(ops);
    OpCount(b.sequence, b.ops);
    forall i | 0 <= i < |ops|
      ensures OpEntries(b.sequence, b.ops)[i] == EntriesOf(ops)[i]
    {
      OpEntry(b.sequence, b.ops, i);
    }
  }

  lemma {:induction false} LogReadsBack(log: seq<seq<Op>>)
    requires Gapless(log)
    ensures BatchesEntries(BatchesWith(log)) == EntriesOf(Flat(log))
  {
    hide BatchWith, EntriesOf;
    if log != [] {
      var n := |log| - 1;
      LogReadsBack(log[..n]);
      BatchReadsBack(log[n]);
      TakeAppend(BatchesWith(log[..n]), BatchWith(log[n]));
      EntriesAppend(Flat(log[..n]), log[n]);
    } else {
      NoEntries();
    }
  }

  lemma NoEntries()
    ensures EntriesOf([]) == []
  {
  }

  lemma {:induction false} FlatAppend<T>(a: seq<seq<T>>, b: seq<seq<T>>)
    ensures Flat(a + b) == Flat(a) + Flat(b)
  {
    if b == [] {
      assert a + b == a;
    } else {
      var n := |b| - 1;
      FlatAppend(a, b[..n]);
      assert (a + b)[..|a + b| - 1] == a + b[..n];
    }
  }

  lemma {:induction false} TablesReadBack(contents: Contents, files: seq<FileId>, tables: seq<seq<Op>>)
    requires |files| == |tables| && forall i :: 0 <= i < |tables| ==> contents(files[i]) == Table(Lines(tables[i]), false)
    requires forall i, o :: 0 <= i < |tables| && o in tables[i] ==> o.seqNo < LittleEndian.Pow256(7)
    ensures LdbEntries(contents, files) == EntriesOf(Flat(tables))
  {
    hide EntriesOf, TableEntries, Lines;
    if tables != [] {
      var n := |tables| - 1;
      TablesReadBack(contents, files[..n], tables[..n]);
      LinesReadBack(tables[n]);
      EntriesAppend(Flat(tables[..n]), tables[n]);
    } else {
      NoEntries();
    }
  }

  lemma {:induction false} LogsReadBack(ck: Checksum, parsed: seq<Option<seq<WalBatch>>>, logs: seq<seq<seq<Op>>>)
    requires Masks(ck) && |parsed| == |logs|
    requires forall i :: 0 <= i < |logs| ==>
      Fits(ck, logs[i]) && parsed[i] == Some(Parse(ck, WalWriter.WriteLog(ck, WalWriter.Encoded(BatchesWith(logs[i])), 0)))
    ensures LogEntries(parsed) == EntriesOf(Flat(Flat(logs)))
  {
    hide EntriesOf, BatchesEntries, Parse, WalWriter.WriteLog, WalWriter.Encoded, Masks, BatchesWith, WalWriter.Writable;
    if logs != [] {
      var n := |logs| - 1;
      LogsReadBack(ck, parsed[..n], logs[..n]);
      WalWriter.ParseUndoesWrite(ck, BatchesWith(logs[n]), 0);
      LogReadsBack(logs[n]);
      FlatAppend(Flat(logs[..n]), logs[n]);
      EntriesAppend(Flat(Flat(logs[..n])), Flat(logs[n]));
    } else {
      NoEntries();
    }
  }

  lemma AllRead(contents: Contents, dir: Directory, ck: Checksum, tables: seq<seq<Op>>, logs: seq<seq<seq<Op>>>)
    requires Holds(contents, dir, ck, tables, logs)
    ensures !SomethingUnread(contents, dir)
  {
    hide Lines, Fits, Parse, WalWriter.WriteLog, WalWriter.Encoded, BatchesWith, EntriesOf, TableEntries;
    forall f | f in dir.ldb
      ensures contents(f).Table? && !contents(f).lossy && forall e :: e in contents(f).entries ==> |e.0| >= 8
    {
      var i :| 0 <= i < |dir.ldb| && dir.ldb[i] == f;
      LinesReadBack(tables[i]);
    }
  }

  /** The loaders meet every operation once, in order, under its own number. */
  lemma DirectoryReadsBack(contents: Contents, dir: Directory, ck: Checksum, tables: seq<seq<Op>>, logs: seq<seq<seq<Op>>>)
    requires Masks(ck) && Holds(contents, dir, ck, tables, logs)
    ensures DirEntries(contents, dir) == EntriesOf(AllOps(tables, logs)) && !SomethingUnread(contents, dir)
  {
    hide SomethingUnread, Lines, Fits, Parse, WalWriter.WriteLog, WalWriter.Encoded, BatchesWith, EntriesOf, Masks;
    TablesReadBack(contents, dir.ldb, tables);
    LogsReadBack(ck, dir.logs, logs);
    EntriesAppend(Flat(tables), Flat(Flat(logs)));
    AllRead(contents, dir, ck, tables, logs);
  }

  lemma OpReadsBack(o: Op)
    ensures OpOf(EntryOf(o)) == o
  {
  }

  lemma OpsReadBack(ops: seq<Op>)
    ensures OpsOf(EntriesOf(ops)) == Elems(ops)
  {
    var es := EntriesOf(ops);
    forall o
      ensures o in OpsOf(es) <==> o in Elems(ops)
    {
      if o in OpsOf(es) {
        var e :| e in es && OpOf(e) == o;
        var i :| 0 <= i < |es| && es[i] == e;
        OpReadsBack(ops[i]);
      }
      if o in ops {
        var i :| 0 <= i < |ops| && ops[i] == o;
        assert es[i] in es;
        OpReadsBack(o);
      }
    }
  }

  lemma OneEntryEach(ops: seq<Op>, h: seq<Op>)
    requires Increasing(h) && Elems(ops) <= Elems(h)
    ensures Consistent(EntriesOf(ops))
  {
    var es := EntriesOf(ops);
    forall e, f | e in es && f in es && e.key == f.key && e.seqNo == f.seqNo
      ensures e == f
    {
      var i :| 0 <= i < |es| && es[i] == e;
      var j :| 0 <= j < |es| && es[j] == f;
      assert ops[i] in Elems(h) && ops[j] in Elems(h);
      var a :| 0 <= a < |h| && h[a] == ops[i];
      var b :| 0 <= b < |h| && h[b] == ops[j];
    }
  }

  /** Main result: a directory that holds some of a log's operations, in tables and in gapless batches of its logs, is loaded as exactly
      those operations; when they represent the log, what is live in it is what the snapshot lists. */
  lemma WrittenLoads(contents: Contents, dir: Directory, ck: Checksum, tables: seq<seq<Op>>, logs: seq<seq<seq<Op>>>, h: seq<Op>,
                     snap: Snapshot, bucketOf: BucketOf, names: seq<Entry> -> map<string, StoreName>)
    requires Masks(ck) && Holds(contents, dir, ck, tables, logs) && Increasing(h) && Elems(AllOps(tables, logs)) <= Elems(h)
    requires IsSnapshotOf(snap, contents, dir, bucketOf, names)
    ensures Loads(snap, Elems(AllOps(tables, logs)), bucketOf)
    ensures Represents(Elems(AllOps(tables, logs)), h) ==>
      forall sk :: NoDup(Bucket(snap, sk)) && Elems(Bucket(snap, sk)) == Part(Live(Elems(h)), k => bucketOf(k) == Some(sk))
  {
    hide Holds, Increasing, Represents, Live, Bucket, Masks, DirEntries, SomethingUnread, EntriesOf, OpsOf, Consistent, IsMaxSeq, ColdFold,
         StoreRecords, OnePerKey, HighWater;
    var ops := AllOps(tables, logs);
    DirectoryReadsBack(contents, dir, ck, tables, logs);
    OpsReadBack(ops);
    OneEntryEach(ops, h);
    if Represents(Elems(ops), h) {
      CompactionKeepsLive(Elems(ops), h);
    }
  }
}
