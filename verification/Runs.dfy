/** Whole runs of refreshes: what the served store is worth after any mix of ticks, first from what each step relies on, then from
    a growing log alone; what a delta over an incomplete store is worth; and when even the handles are those of a fresh build. */
module Runs {
  import opened Base
  import opened Tables
  import opened Source
  import opened Recompute
  import opened History
  import opened Handles
  import opened Delta
  import opened Builds
  import opened ChatStores
  import opened Refresh
  import opened Sessions
  import opened Owners

  // ---- steady runs ----

  /** When the mapped stores of two snapshots agree, the delta between them can be relied on. */
  ghost predicate SteadyPair(select: Snapshot -> Option<Mapping>, native: bool, prior: Snapshot, snap: Snapshot) {
    select(prior).Some? ==>
      var m := select(prior).value;
      TargetSet(m, prior, MessageEntity) == TargetSet(m, snap, MessageEntity)
      && TargetSet(m, prior, ConversationEntity) == TargetSet(m, snap, ConversationEntity)
      ==> Steady(select, native, m, m.vote(MessageRecords(m, prior)), prior, snap)
  }

  /** `snap` is what some call of the tick reads completely. */
  ghost predicate ReadsAll(t: Tick, snap: Snapshot) {
    snap in Reads(t) && !snap.lossy
  }

  /** Every complete read of the run matches a mapping and is steady after every complete read before it. */
  ghost predicate SteadyRun(select: Snapshot -> Option<Mapping>, native: bool, start: Snapshot, ticks: seq<(bool, Tick)>) {
    forall j, snap :: 0 <= j < |ticks| && ReadsAll(ticks[j].1, snap) ==>
      && select(snap).Some? && SteadyPair(select, native, start, snap)
      && forall i, prior :: 0 <= i < j && ReadsAll(ticks[i].1, prior) ==> SteadyPair(select, native, prior, snap)
  }

  /** The frame of a session serving a complete, faithful, matched store. */
  ghost predicate Good(select: Snapshot -> Option<Mapping>, a: Frame) {
    && a.cur.Some? && a.cur.value.built.Some? && a.faithful && a.complete
    && var b := a.cur.value.built.value;
    && select(a.applied) == Some(b.mapping) &&
      b.state == StateOf(b.mapping, b.mapping.vote(MessageRecords(b.mapping, a.applied)), a.applied)
  }

  lemma GoodStep(select: Snapshot -> Option<Mapping>, native: bool, t: Tick, step: Step, a: Frame, b: Frame)
    requires Good(select, a) && Took(select, native, t, step, a, b)
    requires forall snap :: ReadsAll(t, snap) ==> select(snap).Some? && SteadyPair(select, native, a.applied, snap)
    ensures b.cur.Some? && b.cur.value.built.Some? && b.faithful && b.complete
    ensures b == a || ReadsAll(t, b.applied)
    ensures b == a || (b.served.Some? && (b.named == IdsOf(b.served.value) || b.named == BothIds(a.named, IdsOf(b.served.value))))
  {
    hide Steady, Reads, Targets;
    if step.Stepped? {
      assert ReadsAll(t, step.snap);
      var m, s := a.cur.value.built.value.mapping, a.applied;
      StateTargets(m, m.vote(MessageRecords(m, s)), s);
    }
  }

  // ---- backstops over a run ----

  /** Refresh after refresh, each deciding from the frame the one before left. */
  ghost predicate Trace(select: Snapshot -> Option<Mapping>, p: Policy, frames: seq<Frame>, ticks: seq<(bool, Tick)>, steps: seq<Step>) {
    && |frames| == |ticks| + 1 == |steps| + 1
    && forall i :: 0 <= i < |ticks| ==> TraceStep(select, p, frames[i], ticks[i].0, ticks[i].1, steps[i], frames[i + 1])
  }

  ghost predicate TraceStep(select: Snapshot -> Option<Mapping>, p: Policy, a: Frame, forceFull: bool, t: Tick, step: Step, b: Frame) {
    && Took(select, p.native, t, step, a, b)
    && exists pending, hasDir :: RefreshVerdict(p, a, pending, hasDir, forceFull, t).step == step
  }

  function StepsIn(steps: seq<Step>): nat {
    if steps == [] then 0 else StepsIn(steps[..|steps| - 1]) + if steps[|steps| - 1].Stepped? then 1 else 0
  }

  lemma TraceCounts(select: Snapshot -> Option<Mapping>, p: Policy, a: Frame, forceFull: bool, t: Tick, step: Step, b: Frame)
    requires TraceStep(select, p, a, forceFull, t, step, b)
    ensures step.Rebuilt? ==> b.increments == 0 && b.lastFullAt == t.now
    ensures step.Stayed? ==> b.increments == a.increments && b.lastFullAt == a.lastFullAt
    ensures step.Stepped? ==> b.increments == a.increments + 1 && b.lastFullAt == a.lastFullAt
    ensures step.Stepped? ==>
      a.increments < p.maxIncrementals && (t.early - a.lastFullAt <= p.fullIntervalMs || t.now - a.lastFullAt <= p.fullIntervalMs)
  {
    hide RefreshVerdict, DeltaContents, NextBuilt, StepsTo, SameStores;
    var pending, hasDir :| RefreshVerdict(p, a, pending, hasDir, forceFull, t).step == step;
    SteppedWithinBackstops(p, a, pending, hasDir, forceFull, t);
  }

  /** Main result: since the last full build no more increments were applied than the policy allows, and none at a tick both of whose looks at
      the clock came too long after it. */
  lemma {:induction false} BackstopsHold(select: Snapshot -> Option<Mapping>, p: Policy, frames: seq<Frame>, ticks: seq<(bool, Tick)>,
                                         steps: seq<Step>, full: nat)
    requires Trace(select, p, frames, ticks, steps) && full < |steps| && steps[full].Rebuilt?
    requires forall i :: full < i < |steps| ==> !steps[i].Rebuilt?
    ensures StepsIn(steps[full + 1..]) == frames[|steps|].increments <= p.maxIncrementals
    ensures frames[|steps|].lastFullAt == ticks[full].1.now
    ensures forall i :: full < i < |steps| && steps[i].Stepped? ==>
      ticks[i].1.early - ticks[full].1.now <= p.fullIntervalMs || ticks[i].1.now - ticks[full].1.now <= p.fullIntervalMs
    decreases |steps|
  {
    hide TraceStep;
    var n := |steps| - 1;
    TraceCounts(select, p, frames[n], ticks[n].0, ticks[n].1, steps[n], frames[n + 1]);
    if full < n {
      BackstopsHold(select, p, frames[..n + 1], ticks[..n], steps[..n], full);
      assert steps[full + 1..][..n - full - 1] == steps[..n][full + 1..];
    } else {
      assert steps[full + 1..] == [];
    }
  }

  // ---- handles ----

  predicate Within(a: Ids, b: Ids) {
    a.convs <= b.convs && a.people <= b.people
  }

  /** The conversations and people of a full build of `snap`. */
  ghost function BuildIds(mapping: Mapping, snap: Snapshot): Ids {
    var rows := FullMessages(mapping, mapping.vote(MessageRecords(mapping, snap)), MessageRecords(mapping, snap)).Values;
    Ids(ConvMetaOf(mapping, snap, Targets(mapping, snap, ConversationEntity)).Keys + ConvIds(rows), Senders(rows))
  }

  ghost predicate ShowsWithin(select: Snapshot -> Option<Mapping>, snap: Snapshot, ids: Ids) {
    select(snap).Some? ==> Within(BuildIds(select(snap).value, snap), ids)
  }

  lemma IngestIds(select: Snapshot -> Option<Mapping>, native: bool, snap: Snapshot, b: Built, book: map<string, string>,
                  indexed: bool, c: Contents)
    requires IsFullIngest(select, native, snap, b, book, indexed, c)
    ensures select(snap) == Some(b.mapping) && IdsOf(c) == BuildIds(b.mapping, snap)
  {
    hide IsPerson, IsConversation, EntityTable, FullMessages, IsIndex, ConvMetaOf, Targets;
  }

  /** A rebuild from nothing under a fresh allocator. */
  ghost predicate IsFreshBuild(select: Snapshot -> Option<Mapping>, sha: Hash, snap: Snapshot, indexed: bool, c: Contents) {
    select(snap).Some? &&
    var m := select(snap).value;
    IsBuild(m, m.vote(MessageRecords(m, snap)), snap, BuildBook(sha, ConvIdsOf(m, snap), c.messages.Values).byFull, indexed, c)
  }

  /** No id is both a conversation's and a person's, and no two share six digits. */
  ghost predicate Collisionless(sha: Hash, ids: Ids) {
    ids.convs !! ids.people && NoShortCollision(sha, ids.convs + ids.people)
  }

  /** A full ingest whose allocator only ever named `ids` holds the rows of a fresh build, handles included, unless ids collide. */
  lemma FreshRows(select: Snapshot -> Option<Mapping>, native: bool, sha: Hash, snap: Snapshot, b: Built, book: Book,
                  indexed: bool, c: Contents,
                  named: Ids, ids: Ids, anew: Contents)
    requires IsFullIngest(select, native, snap, b, book.byFull, indexed, c) && NamesOnly(sha, EMPTY, book, named)
    requires Within(named, ids) && ShowsWithin(select, snap, ids) && Collisionless(sha, ids)
    requires IsFreshBuild(select, sha, snap, indexed, anew) && NamesAgree(c.messages.Values)
    ensures SameRows(indexed, c, anew)
  {
    hide IsBuild, BuildBook, NoShortCollision, SameRows, NamesAgree, BuildIds, ConvIdsOf, KeepsShort;
    var m := select(snap).value;
    var self := m.vote(MessageRecords(m, snap));
    var other := BuildBook(sha, ConvIdsOf(m, snap), anew.messages.Values);
    IngestIds(select, native, snap, b, book.byFull, indexed, c);
    BuildIdsOf(m, snap, other.byFull, indexed, anew);
    FreshNames(m, self, snap, sha, other.byFull, indexed, anew);
    StartsShort(sha, ids);
    NamedShort(sha, book, named, ids);
    NamedShort(sha, other, IdsOf(anew), ids);
    SameTables(m, self, snap, sha, ids.convs, ids.people, indexed, book, c, other, anew);
  }

  lemma BuildIdsOf(m: Mapping, snap: Snapshot, book: map<string, string>, indexed: bool, c: Contents)
    requires IsBuild(m, m.vote(MessageRecords(m, snap)), snap, book, indexed, c)
    ensures IdsOf(c) == BuildIds(m, snap)
  {
    hide IsPerson, IsConversation, EntityTable, FullMessages, IsIndex, ConvMetaOf, Targets;
  }

  lemma FreshNames(m: Mapping, self: Option<string>, snap: Snapshot, sha: Hash, book: map<string, string>, indexed: bool,
                   c: Contents)
    requires IsBuild(m, self, snap, book, indexed, c)
    ensures NamesOnly(sha, EMPTY, BuildBook(sha, ConvIdsOf(m, snap), c.messages.Values), IdsOf(c))
  {
    hide NamesOnly, IsPeople, IsConversations, EntityTable, FullMessages, BuildBook, ConvIdsOf, IsIndex, ConvMetaOf, Targets;
    BuiltNames(m, self, snap, sha, book, c);
  }

  lemma StartsShort(sha: Hash, ids: Ids)
    requires Collisionless(sha, ids)
    ensures ShortIn(sha, ids.convs, ids.people, EMPTY)
  {
  }

  lemma NamedShort(sha: Hash, book: Book, named: Ids, ids: Ids)
    requires NamesOnly(sha, EMPTY, book, named) && Within(named, ids) && ShortIn(sha, ids.convs, ids.people, EMPTY)
    ensures ShortIn(sha, ids.convs, ids.people, book)
  {
    hide ShortIn;
  }

  // ---- runs of a session ----

  /** The session serves a complete store, exactly the full build of what was last applied, and named nobody outside `ids`. */
  ghost predicate Serves(session: Session, ids: Ids)
    reads session, session.repr
  {
    session.Valid() && session.Matched() && session.faithful && session.complete && Within(session.named, ids)
  }

  lemma NowGood(session: Session, ids: Ids)
    requires Serves(session, ids)
    ensures Good(session.select, session.Now())
    ensures session.cur.Some? && session.IsIngestOf(session.cur.value, session.applied)
    ensures session.Served().Some? && session.select(session.applied).Some?
    ensures IdsOf(session.Served().value) == BuildIds(session.select(session.applied).value, session.applied)
  {
    hide IsFullIngest, BuildIds;
    NowIngest(session, ids);
    var b := session.cur.value;
    IngestIds(session.select, session.native, session.applied, b.built.value, b.store.handles.handleByFull,
              b.store.IndexLive(), b.store.View());
  }

  lemma NowIngest(session: Session, ids: Ids)
    requires Serves(session, ids)
    ensures Good(session.select, session.Now())
    ensures session.cur.Some? && session.IsIngestOf(session.cur.value, session.applied)
  {
  }

  /** One refresh of a run. */
  method RunStep(session: Session, forceFull: bool, t: Tick, ghost ids: Ids)
    requires Serves(session, ids) && WellRead(t)
    requires forall snap :: ReadsAll(t, snap) ==>
      session.select(snap).Some? && SteadyPair(session.select, session.native, session.applied, snap) &&
        ShowsWithin(session.select, snap, ids)
    modifies session, session.repr
    ensures Serves(session, ids) && fresh(session.repr - old(session.repr))
    ensures session.applied == old(session.applied) || ReadsAll(t, session.applied)
  {
    hide SteadyPair, WellRead, ReadsAll, Took, Good, BuildIds, IsFullIngest, Session.Sound, Session.Tidy;
    NowGood(session, ids);
    ghost var a := session.Now();
    var threw, step := session.Refresh(forceFull, t);
    GoodStep(session.select, session.native, t, step, a, session.Now());
    ServedIds(session);
  }

  lemma ServedIds(session: Session)
    requires session.Valid() && session.Matched() && session.faithful && session.complete
    ensures session.Served().Some? && session.select(session.applied).Some?
    ensures IdsOf(session.Served().value) == BuildIds(session.select(session.applied).value, session.applied)
  {
    NowGood(session, session.named);
  }

  /** Every complete read of the run shows only ids among `ids`. */
  ghost predicate RunWithin(select: Snapshot -> Option<Mapping>, ticks: seq<(bool, Tick)>, ids: Ids) {
    forall j, snap :: 0 <= j < |ticks| && ReadsAll(ticks[j].1, snap) ==> ShowsWithin(select, snap, ids)
  }

  /** The rows the session serves are those of any rebuild from nothing of what it last applied, handles included. */
  ghost predicate ServesFresh(session: Session)
    requires session.cur.Some?
    reads session, session.cur.value.store
  {
    var store := session.cur.value.store;
    NamesAgree(store.View().messages.Values) ==>
      forall anew :: IsFreshBuild(session.select, session.sha, session.applied, store.IndexLive(), anew) ==>
        SameRows(store.IndexLive(), store.View(), anew)
  }

  lemma ServesWhatIsFresh(session: Session, ids: Ids)
    requires Serves(session, ids) && ShowsWithin(session.select, session.applied, ids) && Collisionless(session.sha, ids)
    ensures session.cur.Some? && ServesFresh(session)
  {
    hide IsFullIngest, IsFreshBuild, NamesAgree, SameRows, ShowsWithin, Collisionless;
    NowIngest(session, ids);
    var b := session.cur.value;
    forall anew | IsFreshBuild(session.select, session.sha, session.applied, b.store.IndexLive(), anew) &&
      NamesAgree(b.store.View().messages.Values)
      ensures SameRows(b.store.IndexLive(), b.store.View(), anew)
    {
      FreshRows(session.select, session.native, session.sha, session.applied, b.built.value, b.store.handles.State(), b.store.IndexLive(),
                b.store.View(), session.named, ids, anew);
    }
  }

  /** What the tick after `i` ticks can rely on. */
  lemma NextReads(select: Snapshot -> Option<Mapping>, native: bool, start: Snapshot, ticks: seq<(bool, Tick)>, ids: Ids,
                  i: nat, applied: Snapshot)
    requires SteadyRun(select, native, start, ticks) && RunWithin(select, ticks, ids) && i < |ticks|
    requires applied == start || exists k :: 0 <= k < i && ReadsAll(ticks[k].1, applied)
    ensures forall snap :: ReadsAll(ticks[i].1, snap) ==>
      select(snap).Some? && SteadyPair(select, native, applied, snap) && ShowsWithin(select, snap, ids)
  {
    hide ReadsAll, SteadyPair, ShowsWithin;
    forall snap | ReadsAll(ticks[i].1, snap)
      ensures select(snap).Some? && SteadyPair(select, native, applied, snap) && ShowsWithin(select, snap, ids)
    {
      if applied != start {
        var k :| 0 <= k < i && ReadsAll(ticks[k].1, applied);
      }
    }
  }

  /** Main result. From a session serving the complete build of a matched snapshot, any run of refreshes (forced or not, in place
      or swapped, skipped, deferred, lossy or throwing) leaves it serving exactly the full build of the snapshot last fully read
      and applied; and unless two of the ids shown during the run share six digits, its rows are those of a rebuild from nothing,
      handles included. */
  method Run(session: Session, ticks: seq<(bool, Tick)>, ghost ids: Ids)
    requires Serves(session, ids) && ShowsWithin(session.select, session.applied, ids)
    requires forall i :: 0 <= i < |ticks| ==> WellRead(ticks[i].1)
    requires SteadyRun(session.select, session.native, session.applied, ticks) && RunWithin(session.select, ticks, ids)
    modifies session, session.repr
    ensures Serves(session, ids) && session.IsIngestOf(session.cur.value, session.applied)
    ensures session.applied == old(session.applied) || exists i :: 0 <= i < |ticks| && ReadsAll(ticks[i].1, session.applied)
    ensures Collisionless(session.sha, ids) ==> ServesFresh(session)
  {
    hide SteadyPair, WellRead, ReadsAll, ShowsWithin, Collisionless, ServesFresh, IsFullIngest, Session.Sound, Session.Tidy;
    ghost var start := session.applied;
    for i := 0 to |ticks|
      invariant Serves(session, ids) && fresh(session.repr - old(session.repr))
      invariant session.applied == start || exists k :: 0 <= k < i && ReadsAll(ticks[k].1, session.applied)
    {
      NextReads(session.select, session.native, start, ticks, ids, i, session.applied);
      RunStep(session, ticks[i].0, ticks[i].1, ids);
    }
    NowIngest(session, ids);
    if Collisionless(session.sha, ids) {
      ServesWhatIsFresh(session, ids);
    }
  }

  // ---- a store that may have missed records ----

  /** What a store is worth after a lossy first build, or whatever else became of it. Only a complete full build makes it complete
      again; until then a tick may keep it, and a delta makes it the full build of what was read iff, in the stored messages, every
      key agrees. */
  lemma IncompleteWorth(select: Snapshot -> Option<Mapping>, native: bool, t: Tick, step: Step, a: Frame, b: Frame)
    requires Took(select, native, t, step, a, b) && WellRead(t) && IsMatched(a) && Listed(a.cur.value.built.value) &&
      a.served.Some? && !a.complete
    ensures b.complete ==> step.Rebuilt? && !step.lossy
    ensures step.Stayed? ==> b == a
    ensures var built := a.cur.value.built.value;
      step.Stepped? && (native ==> SkippedAreCurrent(built.mapping, built.sigs, step.snap, a.served.value)) ==>
        if step.snap.maxSeq == built.state.maxSeq then b.served == a.served
        else
          (exists book :: IsBuild(built.mapping, built.state.selfMri, step.snap, book, false, b.served.value))
          <==> AllAgree(built.mapping, built.state.selfMri, a.served.value.messages, built.state.maxSeq,
                        MessageRecords(built.mapping, step.snap))
  {
    hide Reads, AllAgree, SkippedAreCurrent, IsBuild, IsIncrement, StepsTo, Targets, NextBuilt, OnePerKey;
    var built := a.cur.value.built.value;
    if step.Stepped? && step.snap.maxSeq != built.state.maxSeq &&
      (native ==> SkippedAreCurrent(built.mapping, built.sigs, step.snap, a.served.value)) {
      var book :| IsIncrement(built.mapping, built.state, step.snap, a.served.value.messages, book, false, b.served.value);
      var from :| built.state == StateOf(built.mapping, built.state.selfMri, from);
      StateTargets(built.mapping, built.state.selfMri, from);
      SortedTargets(built.mapping, from, step.snap);
      ReadDistinct(built.mapping, step.snap);
      IncrementOverAnything(built.mapping, built.state, step.snap, a.served.value.messages, book, b.served.value, false);
      forall other | IsBuild(built.mapping, built.state.selfMri, step.snap, other, false, b.served.value)
        ensures IsBuild(built.mapping, built.state.selfMri, step.snap, book, false, b.served.value)
      {
        MessagesDecide(built.mapping, built.state, step.snap, a.served.value.messages, book, other, b.served.value);
      }
    }
  }

  lemma SortedTargets(mapping: Mapping, from: Snapshot, snap: Snapshot)
    ensures forall e :: TargetSet(mapping, snap, e) == TargetSet(mapping, from, e) ==>
      Targets(mapping, snap, e) == Targets(mapping, from, e)
  {
  }

  lemma ReadDistinct(mapping: Mapping, snap: Snapshot)
    requires OnePerKey(snap)
    ensures DistinctKeys(MessageRecords(mapping, snap))
  {
    TargetsNoDup(mapping, snap, MessageEntity);
  }

  lemma MessagesDecide(mapping: Mapping, state: IngestState, snap: Snapshot, stored: MessageTable, book: map<string, string>,
                       other: map<string, string>, c: Contents)
    requires IsIncrement(mapping, state, snap, stored, book, false, c) && IsBuild(mapping, state.selfMri, snap, other, false, c)
    requires state.convTargets == Targets(mapping, snap, ConversationEntity)
    ensures IsBuild(mapping, state.selfMri, snap, book, false, c)
  {
    hide Follows, FullMessages, DeltaMessages;
  }

  // ---- runs over a growing log ----

  /** `snap` is a complete load of files that represent the log as it was at some point between `lo` and `hi` operations. */
  ghost predicate ReadBetween(h: seq<Op>, bucketOf: BucketOf, lo: nat, hi: nat, snap: Snapshot) {
    exists n: nat, files :: lo <= n <= hi && n <= |h| && Represents(files, h[..n]) && Loads(snap, files, bucketOf)
  }

  /** The log only grows: tick `j` reads it somewhere between `ends[j]` and `ends[j + 1]` operations, whatever compaction made of the
      files; every complete read shows the same schema and user and one owner per message, and nothing disturbs the tables that a
      step would leave alone. */
  ghost predicate LoggedRun(select: Snapshot -> Option<Mapping>, native: bool, mapping: Mapping, self: Option<string>, h: seq<Op>,
                            bucketOf: BucketOf, ends: seq<nat>, start: Snapshot, ticks: seq<(bool, Tick)>) {
    && |ends| == |ticks| + 1 && (forall i, j :: 0 <= i <= j < |ends| ==> ends[i] <= ends[j])
    && ReadBetween(h, bucketOf, 0, ends[0], start) && Expected(select, mapping, self, start)
    && forall j, snap :: 0 <= j < |ticks| && ReadsAll(ticks[j].1, snap) ==>
         && ReadBetween(h, bucketOf, ends[j], ends[j + 1], snap) && Expected(select, mapping, self, snap)
         && Undisturbed(native, mapping, self, start, snap)
         && forall i, prior :: 0 <= i < j && ReadsAll(ticks[i].1, prior) ==> Undisturbed(native, mapping, self, prior, snap)
  }

  lemma LoggedPair(select: Snapshot -> Option<Mapping>, native: bool, mapping: Mapping, self: Option<string>, h: seq<Op>,
                   bucketOf: BucketOf,
                   lo: nat, mid: nat, hi: nat, prior: Snapshot, snap: Snapshot)
    requires Increasing(h) && ReadBetween(h, bucketOf, lo, mid, prior) && ReadBetween(h, bucketOf, mid, hi, snap)
    requires Expected(select, mapping, self, prior) && Expected(select, mapping, self, snap) &&
      Undisturbed(native, mapping, self, prior, snap)
    ensures SteadyPair(select, native, prior, snap)
  {
    hide Represents, Loads, OneOwner, Undisturbed, Steady, Targets;
    var n: nat, files0 :| lo <= n <= mid && n <= |h| && Represents(files0, h[..n]) && Loads(prior, files0, bucketOf);
    var m: nat, files1 :| mid <= m <= hi && m <= |h| && Represents(files1, h[..m]) && Loads(snap, files1, bucketOf);
    assert h[..m] == h[..n] + h[n..m];
    assert Increasing(h[..n] + h[n..m]);
    if TargetSet(mapping, prior, MessageEntity) == TargetSet(mapping, snap, MessageEntity)
      && TargetSet(mapping, prior, ConversationEntity) == TargetSet(mapping, snap, ConversationEntity)
    {
      SteadyOverHistory(select, native, mapping, self, h[..n], files0, h[n..m], files1, bucketOf, prior, snap);
    }
  }

  lemma LoggedIsSteady(select: Snapshot -> Option<Mapping>, native: bool, mapping: Mapping, self: Option<string>, h: seq<Op>,
                       bucketOf: BucketOf,
                       ends: seq<nat>, start: Snapshot, ticks: seq<(bool, Tick)>)
    requires Increasing(h) && LoggedRun(select, native, mapping, self, h, bucketOf, ends, start, ticks)
    ensures SteadyRun(select, native, start, ticks)
  {
    hide ReadsAll, ReadBetween, Undisturbed, SteadyPair, OneOwner, Increasing, MessageRecords;
    forall j, snap | 0 <= j < |ticks| && ReadsAll(ticks[j].1, snap)
      ensures select(snap).Some? && SteadyPair(select, native, start, snap)
      ensures forall i, prior :: 0 <= i < j && ReadsAll(ticks[i].1, prior) ==> SteadyPair(select, native, prior, snap)
    {
      Sooner(h, bucketOf, 0, ends[0], ends[j], start);
      LoggedPair(select, native, mapping, self, h, bucketOf, 0, ends[j], ends[j + 1], start, snap);
      forall i, prior | 0 <= i < j && ReadsAll(ticks[i].1, prior)
        ensures SteadyPair(select, native, prior, snap)
      {
        Sooner(h, bucketOf, ends[i], ends[i + 1], ends[j], prior);
        LoggedPair(select, native, mapping, self, h, bucketOf, ends[i], ends[j], ends[j + 1], prior, snap);
      }
    }
  }

  lemma Sooner(h: seq<Op>, bucketOf: BucketOf, lo: nat, hi: nat, later: nat, snap: Snapshot)
    requires ReadBetween(h, bucketOf, lo, hi, snap) && hi <= later
    ensures ReadBetween(h, bucketOf, lo, later, snap)
  {
    hide Represents, Loads;
  }

  function ReadsOf(mapping: Mapping, snaps: seq<Snapshot>): seq<Read> {
    seq(|snaps|, i requires 0 <= i < |snaps| => Read(MessageRecords(mapping, snaps[i]), snaps[i].maxSeq))
  }

  /** A store of any worth, then deltas to complete loads of one growing log, as long as messages keep their chains: its messages are those
      of a full build iff each live record at or below the mark of the first, lossy or not, was stored exactly from the start. */
  lemma LossyRunOverHistory(owner: Key -> string, mapping: Mapping, self: Option<string>, h: seq<Op>, bucketOf: BucketOf,
                            ends: seq<nat>,
                            stored: MessageTable, floor: nat, snaps: seq<Snapshot>)
    requires Increasing(h) && |ends| == |snaps| + 1 && forall i, j :: 0 <= i <= j < |ends| ==> ends[i] <= ends[j]
    requires forall i :: 0 <= i < |snaps| ==> ReadBetween(h, bucketOf, ends[i], ends[i + 1], snaps[i]) && floor <= snaps[i].maxSeq
    requires forall i :: 0 <= i < |snaps| ==> TargetSet(mapping, snaps[i], MessageEntity) == TargetSet(mapping, snaps[0], MessageEntity)
    requires forall i :: 0 <= i < |snaps| ==> OwnedBy(owner, mapping, self, MessageRecords(mapping, snaps[i]))
    requires TableOwnedBy(owner, stored) && snaps != []
    ensures var recs := MessageRecords(mapping, snaps[|snaps| - 1]);
      Deltas(mapping, self, stored, floor, ReadsOf(mapping, snaps)) == FullMessages(mapping, self, recs)
      <==> forall r :: r in recs && r.seqNo <= floor ==> Stores(mapping, self, stored, r)
  {
    hide ReadBetween, OwnedBy, TableOwnedBy, Stores, FullMessages, Deltas, DistinctKeys, Carried, Records, TargetSet, Increasing;
    forall i | 0 <= i < |snaps|
      ensures DistinctKeys(MessageRecords(mapping, snaps[i]))
    {
      ReadBetweenOnce(h, bucketOf, ends[i], ends[i + 1], snaps[i]);
      ReadDistinct(mapping, snaps[i]);
    }
    forall i | 1 <= i < |snaps|
      ensures Carried(MessageRecords(mapping, snaps[i - 1]), snaps[i - 1].maxSeq, MessageRecords(mapping, snaps[i]))
    {
      CarriedBetween(mapping, h, bucketOf, ends[i - 1], ends[i], ends[i + 1], snaps[i - 1], snaps[i]);
    }
    RunAgrees(owner, mapping, self, stored, floor, ReadsOf(mapping, snaps));
  }

  lemma CarriedBetween(mapping: Mapping, h: seq<Op>, bucketOf: BucketOf, lo: nat, mid: nat, hi: nat, prior: Snapshot,
                       snap: Snapshot)
    requires Increasing(h) && ReadBetween(h, bucketOf, lo, mid, prior) && ReadBetween(h, bucketOf, mid, hi, snap)
    requires TargetSet(mapping, prior, MessageEntity) == TargetSet(mapping, snap, MessageEntity)
    ensures Carried(MessageRecords(mapping, prior), prior.maxSeq, MessageRecords(mapping, snap))
  {
    hide Represents, Lists, Live, Records, TargetSet;
    var n: nat, files0 :| lo <= n <= mid && n <= |h| && Represents(files0, h[..n]) && Loads(prior, files0, bucketOf);
    var m: nat, files1 :| mid <= m <= hi && m <= |h| && Represents(files1, h[..m]) && Loads(snap, files1, bucketOf);
    assert h[..m] == h[..n] + h[n..m];
    assert Increasing(h[..n] + h[n..m]);
    SameTargetList(mapping, prior, snap, MessageEntity);
    var targets := Targets(mapping, prior, MessageEntity);
    TargetsNoDup(mapping, prior, MessageEntity);
    LoadedRecords(prior, files0, bucketOf, targets);
    LoadedRecords(snap, files1, bucketOf, targets);
    FloorOf(prior, files0, bucketOf);
    forall r | r in MessageRecords(mapping, snap) && r.seqNo <= prior.maxSeq
      ensures r in MessageRecords(mapping, prior)
    {
      FloorCarries(files0, h[..n], prior.maxSeq, files1, h[n..m], r);
    }
  }

  /** A load of the log lists one record per key. */
  lemma ReadBetweenOnce(h: seq<Op>, bucketOf: BucketOf, lo: nat, hi: nat, snap: Snapshot)
    requires ReadBetween(h, bucketOf, lo, hi, snap)
    ensures OnePerKey(snap)
  {
    hide Represents, Lists, OnePerKey;
    var n: nat, files :| lo <= n <= hi && n <= |h| && Represents(files, h[..n]) && Loads(snap, files, bucketOf);
    ListedOncePerKey(snap, files, bucketOf);
  }

  lemma LoggedReads(h: seq<Op>, bucketOf: BucketOf, lo: nat, hi: nat, t: Tick)
    requires forall snap :: ReadsAll(t, snap) ==> ReadBetween(h, bucketOf, lo, hi, snap)
    ensures WellRead(t)
  {
    hide ReadBetween, OnePerKey, Reads;
    forall snap | snap in Reads(t) && !snap.lossy
      ensures OnePerKey(snap)
    {
      assert ReadsAll(t, snap);
      ReadBetweenOnce(h, bucketOf, lo, hi, snap);
    }
  }

  lemma LoggedIsWellRead(select: Snapshot -> Option<Mapping>, native: bool, mapping: Mapping, self: Option<string>,
                         h: seq<Op>, bucketOf: BucketOf,
                         ends: seq<nat>, start: Snapshot, ticks: seq<(bool, Tick)>)
    requires LoggedRun(select, native, mapping, self, h, bucketOf, ends, start, ticks)
    ensures forall i :: 0 <= i < |ticks| ==> WellRead(ticks[i].1)
  {
    hide ReadsAll, ReadBetween, Undisturbed, Expected, WellRead;
    forall i | 0 <= i < |ticks|
      ensures WellRead(ticks[i].1)
    {
      LoggedReads(h, bucketOf, ends[i], ends[i + 1], ticks[i].1);
    }
  }

  /** Main result. A new session whose first build is complete, then any refreshes while the log grows and is compacted: it serves
      exactly the full build of what it last read in full and applied. No step is assumed to be steady: the log and what its complete
      reads show make it so. */
  method RunOverHistory(session: Session, first: Tick, ticks: seq<(bool, Tick)>, ghost mapping: Mapping,
                        ghost self: Option<string>,
                        ghost h: seq<Op>, ghost bucketOf: BucketOf, ghost ends: seq<nat>, ghost ids: Ids)
    requires session.Valid() && session.cur.None?
    requires Readable(session.Config(), first) && !CopyLossy(session.Config(), first) && first.full.Loaded? && !first.full.snap.lossy
    requires Increasing(h) && LoggedRun(session.select, session.native, mapping, self, h, bucketOf, ends, first.full.snap, ticks)
    requires forall snap :: ReadsAll(first, snap) ==> ReadBetween(h, bucketOf, 0, ends[0], snap)
    requires ShowsWithin(session.select, first.full.snap, ids) && RunWithin(session.select, ticks, ids)
    modifies session, session.repr
    ensures Serves(session, ids) && session.IsIngestOf(session.cur.value, session.applied)
    ensures session.applied == first.full.snap || exists i :: 0 <= i < |ticks| && ReadsAll(ticks[i].1, session.applied)
    ensures Collisionless(session.sha, ids) ==> ServesFresh(session)
  {
    hide WellRead, ReadsAll, RunWithin, Collisionless, ServesFresh, IsFullIngest, BuildIds, LoggedRun, Increasing,
         ReadBetween, Session.Sound, Session.Tidy;
    LoggedIsSteady(session.select, session.native, mapping, self, h, bucketOf, ends, first.full.snap, ticks);
    LoggedIsWellRead(session.select, session.native, mapping, self, h, bucketOf, ends, first.full.snap, ticks);
    FirstRead(session.select, session.native, mapping, self, h, bucketOf, ends, first.full.snap, ticks);
    LoggedReads(h, bucketOf, 0, ends[0], first);
    DueFullHappens(session.Config(), session.Now(), session.pendingFull, session.snapshotDir.Some?, true, first);
    var threw, step := session.Refresh(true, first);
    ServedIds(session);
    Run(session, ticks, ids);
  }

  lemma FirstRead(select: Snapshot -> Option<Mapping>, native: bool, mapping: Mapping, self: Option<string>, h: seq<Op>,
                  bucketOf: BucketOf,
                  ends: seq<nat>, start: Snapshot, ticks: seq<(bool, Tick)>)
    requires LoggedRun(select, native, mapping, self, h, bucketOf, ends, start, ticks)
    ensures |ends| > 0 && select(start) == Some(mapping)
  {
  }
}
