/** The refresh policy: which ticks rebuild, which apply a delta, what is kept, and what the served store is worth. */
module Sessions {
  import opened Base
  import opened Source
  import opened Recompute
  import opened Delta
  import opened Builds
  import opened ChatStores
  import opened Handles
  import opened Refresh
  import MessageFold

  /** What an engine needs to refresh a store: the mapping it was built under, the state of the last apply and, for the native
      engine, the signatures of the whole-store tables. */
  datatype Built = Built(mapping: Mapping, state: IngestState, sigs: map<Entity, seq<StoreSig>>)

  /** A served store; nothing was built when no mapping matched the source. */
  datatype Ingested = Ingested(store: ChatStore, built: Option<Built>)

  /** What an engine answers to a refresh. */
  datatype Answer = Defer | KeepCurrent | NeedRebuild | InPlace | Swapped(next: Ingested)

  datatype Mirror = MirrorThrew | MirrorLossy | Mirrored
  datatype Reuse = ReuseThrew | Reused(snap: Snapshot, compacted: bool)
  datatype Copied = CopyThrew | Copied(lossy: bool)

  /** One attempt at a full build: it throws, or it loads a snapshot. */
  datatype Attempt = FullThrew | Loaded(snap: Snapshot)

  /** What the native engine sees before it loads anything: whether the source's signature is the one recorded in a served file of
      its own format, and whether that file can be built on, being of that format and under a mapping that is still known. */
  datatype Glance = Glance(unmoved: bool, usable: bool)

  /** Everything the outside world decides in one refresh: whether the live directory is found, the clock, how the mirror and the
      fresh copy go, what the engine sees of either, what each engine call loads or whether it throws, and the source fingerprint
      afterwards. A full build that throws inside the incremental branch is tried once more. */
  datatype Tick = Tick(reuseLive: bool, early: int, mirror: Mirror, mirrored: Glance, reuse: Reuse, live: bool, copy: Copied, now: int,
                       copied: Glance, refreshThrows: bool, delta: Snapshot, full: Attempt, again: Attempt, probe: Option<nat>)

  /** What one refresh did to the served store: nothing, replaced it by a full build, or brought it forward by a delta. */
  datatype Step = Stayed | Rebuilt(snap: Snapshot, lossy: bool) | Stepped(snap: Snapshot)

  predicate CaughtUp(step: Step) {
    step.Stepped? || (step.Rebuilt? && !step.lossy)
  }

  /** A complete read lists one record per key, as every load does; see `Load.CollectedOnce`. */
  ghost predicate ReadOnce(snap: Snapshot) {
    !snap.lossy ==> OnePerKey(snap)
  }

  /** The snapshots a tick may load, on the mirror and on the fresh copy. */
  ghost function Reads(t: Tick): set<Snapshot> {
    (if t.reuse.Reused? then {t.reuse.snap} else {}) + {t.delta}
    + (if t.full.Loaded? then {t.full.snap} else {}) + (if t.again.Loaded? then {t.again.snap} else {})
  }

  ghost predicate WellRead(t: Tick) {
    forall snap :: snap in Reads(t) ==> ReadOnce(snap)
  }

  function SigsOf(mapping: Mapping, snap: Snapshot): map<Entity, seq<StoreSig>> {
    map e | e in {ProfileEntity, EventEntity, CallEntity} :: EntitySig(snap, Targets(mapping, snap, e))
  }

  /** The store is the engine's own full build of `snap`, and its state is that build's state. */
  ghost predicate IsFullIngest(select: Snapshot -> Option<Mapping>, native: bool, snap: Snapshot, b: Built,
                               book: map<string, string>, indexed: bool, c: Contents) {
    var self := b.mapping.vote(MessageRecords(b.mapping, snap));
    && select(snap) == Some(b.mapping) && b.state == StateOf(b.mapping, self, snap)
    && IsBuild(b.mapping, self, snap, book, indexed, c)
    && (native ==> b.sigs == SigsOf(b.mapping, snap))
  }

  /** Whole-store tables with equal signatures are equal; see `SkipIsReplace`. */
  ghost predicate SigsTell(mapping: Mapping, prior: Snapshot, snap: Snapshot) {
    forall e :: WholeStore(e) && EntitySig(prior, Targets(mapping, prior, e)) == EntitySig(snap, Targets(mapping, snap, e)) ==>
      EntityTable(mapping, prior, e) == EntityTable(mapping, snap, e)
  }

  /** What a delta from `prior` to `snap` relies on: the same schema and user, records below the floor carried over, and
      reconcilable keys; or, when the high-water mark did not move, nothing to show. */
  ghost predicate Steady(select: Snapshot -> Option<Mapping>, native: bool, mapping: Mapping, self: Option<string>,
                         prior: Snapshot, snap: Snapshot) {
    var recs0, recs1 := MessageRecords(mapping, prior), MessageRecords(mapping, snap);
    && select(snap) == Some(mapping) && mapping.vote(recs1) == self
    && if snap.maxSeq == prior.maxSeq then SameShown(mapping, self, prior, snap)
       else
         && DistinctKeys(recs0) && DistinctKeys(recs1) && Carried(recs0, prior.maxSeq, recs1)
         && AllReconcilable(mapping, self, FullMessages(mapping, self, recs0), prior.maxSeq, recs1)
         && (native ==> SigsTell(mapping, prior, snap))
  }

  /** The mapped stores are listed as a snapshot's catalog gives them, each once and in order. */
  ghost predicate Listed(b: Built) {
    exists from :: b.state == StateOf(b.mapping, b.state.selfMri, from)
  }

  lemma ListedOnce(b: Built)
    requires Listed(b)
    ensures NoDup(b.state.msgTargets)
  {
    var from :| b.state == StateOf(b.mapping, b.state.selfMri, from);
    StateTargets(b.mapping, b.state.selfMri, from);
  }

  lemma ListedIs(b: Built, snap: Snapshot)
    requires b.state == StateOf(b.mapping, b.state.selfMri, snap)
    ensures Listed(b)
  {
  }

  /** Advancing the high-water mark leaves the lists alone. */
  lemma ListedNext(b: Built, snap: Snapshot)
    requires Listed(b)
    ensures Listed(NextBuilt(false, b, snap))
  {
    hide StateOf;
    var from :| b.state == StateOf(b.mapping, b.state.selfMri, from);
    StateAt(b.mapping, b.state.selfMri, from, snap.maxSeq);
  }

  lemma StateAt(mapping: Mapping, self: Option<string>, from: Snapshot, maxSeq: nat)
    ensures StateOf(mapping, self, from.(maxSeq := maxSeq)) == StateOf(mapping, self, from).(maxSeq := maxSeq)
  {
    forall e
      ensures Targets(mapping, from.(maxSeq := maxSeq), e) == Targets(mapping, from, e)
    {
      assert TargetSet(mapping, from.(maxSeq := maxSeq), e) == TargetSet(mapping, from, e);
    }
  }

  lemma StateTargets(mapping: Mapping, self: Option<string>, snap: Snapshot)
    ensures Elems(StateOf(mapping, self, snap).msgTargets) == TargetSet(mapping, snap, MessageEntity)
    ensures Elems(StateOf(mapping, self, snap).convTargets) == TargetSet(mapping, snap, ConversationEntity)
    ensures NoDup(StateOf(mapping, self, snap).msgTargets)
  {
    TargetsNoDup(mapping, snap, MessageEntity);
    TargetsNoDup(mapping, snap, ConversationEntity);
  }

  lemma NoOpStep(select: Snapshot -> Option<Mapping>, native: bool, mapping: Mapping, self: Option<string>, prior: Snapshot,
                 snap: Snapshot,
                 book: map<string, string>, c: Contents, indexed: bool)
    requires IsBuild(mapping, self, prior, book, indexed, c) && snap.maxSeq == prior.maxSeq &&
      Steady(select, native, mapping, self, prior, snap)
    ensures IsBuild(mapping, self, snap, book, indexed, c)
  {
    hide IsBuild, SameShown;
    KeptIsBuild(mapping, self, prior, snap, book, indexed, c);
  }

  lemma DeltaStep(select: Snapshot -> Option<Mapping>, native: bool, mapping: Mapping, self: Option<string>, prior: Snapshot,
                  snap: Snapshot,
                  book0: map<string, string>, c0: Contents, book1: map<string, string>, c1: Contents, indexed: bool)
    requires IsBuild(mapping, self, prior, book0, indexed, c0) && snap.maxSeq != prior.maxSeq &&
      Steady(select, native, mapping, self, prior, snap)
    requires TargetSet(mapping, prior, MessageEntity) == TargetSet(mapping, snap, MessageEntity)
    requires TargetSet(mapping, prior, ConversationEntity) == TargetSet(mapping, snap, ConversationEntity)
    requires IsIncrement(mapping, StateOf(mapping, self, prior), snap, c0.messages, book1, false, c1)
    requires indexed ==> IsIndex(c1.fts, c1.messages.Values)
    ensures IsBuild(mapping, self, snap, book1, indexed, c1)
  {
    hide IsPeople, IsConversations, IsIndex, EntityTable, FullMessages, Targets, AllReconcilable;
    IncrementIsFullBuild(mapping, self, prior, snap, book0, c0, book1, c1, indexed);
  }

  /** Skipped whole-store tables of a full ingest already hold what a replacement would write. */
  lemma SkipsAreCurrent(select: Snapshot -> Option<Mapping>, b: Built, self: Option<string>, prior: Snapshot, snap: Snapshot,
                        book: map<string, string>, indexed: bool, c: Contents)
    requires IsFullIngest(select, true, prior, b, book, indexed, c) && snap.maxSeq != prior.maxSeq
    requires Steady(select, true, b.mapping, self, prior, snap)
    ensures SkippedAreCurrent(b.mapping, b.sigs, snap, c)
  {
    hide EntityTable, Targets, EntitySig, IsPeople, IsConversations, IsIndex, FullMessages, AllReconcilable, Carried;
  }

  lemma SteadyMapping(select: Snapshot -> Option<Mapping>, native: bool, mapping: Mapping, self: Option<string>,
                      prior: Snapshot, snap: Snapshot)
    requires Steady(select, native, mapping, self, prior, snap)
    ensures select(snap) == Some(mapping) && mapping.vote(MessageRecords(mapping, snap)) == self
  {
  }

  /** One engine step keeps a store that is the full ingest of `prior` the full ingest of `snap`. */
  lemma SteadyStep(select: Snapshot -> Option<Mapping>, native: bool, b: Built, prior: Snapshot, snap: Snapshot,
                   book0: map<string, string>, c0: Contents, book1: map<string, string>, c1: Contents, indexed: bool)
    requires IsFullIngest(select, native, prior, b, book0, indexed, c0)
    requires Steady(select, native, b.mapping, b.state.selfMri, prior, snap) && SameTargets(b.mapping, b.state, snap)
    requires if snap.maxSeq == b.state.maxSeq then c1 == c0 && Seeded(book0, book1, c0)
             else IsIncrement(b.mapping, b.state, snap, c0.messages, book1, false, c1) && (indexed ==> IsIndex(c1.fts, c1.messages.Values))
    ensures StateOf(b.mapping, b.mapping.vote(MessageRecords(b.mapping, snap)), snap) == b.state.(maxSeq := snap.maxSeq)
    ensures IsBuild(b.mapping, b.state.selfMri, snap, book1, indexed, c1)
  {
    var mapping, self := b.mapping, b.state.selfMri;
    hide Steady, EntityTable, AllReconcilable, FullMessages, IsIndex, IsBuild, IsIncrement, Seeded;
    StateTargets(mapping, self, prior);
    SteadyMapping(select, native, mapping, self, prior, snap);
    if snap.maxSeq == b.state.maxSeq {
      NoOpStep(select, native, mapping, self, prior, snap, book0, c0, indexed);
      SeededBuild(mapping, self, snap, book0, book1, indexed, c0);
    } else {
      DeltaStep(select, native, mapping, self, prior, snap, book0, c0, book1, c1, indexed);
    }
  }

  /** What a session serves and how it got there. */
  datatype Frame = Frame(cur: Option<Ingested>, served: Option<Contents>, applied: Snapshot, faithful: bool, complete: bool,
                         named: Ids, increments: nat, lastFullAt: int)

  /** The mapped stores are those of the served build. */
  ghost predicate SameStores(a: Frame, snap: Snapshot) {
    a.cur.Some? && a.cur.value.built.Some? && SameTargets(a.cur.value.built.value.mapping, a.cur.value.built.value.state, snap)
  }

  /** A delta from the snapshot last applied to `snap` can be relied on. */
  ghost predicate StepsTo(select: Snapshot -> Option<Mapping>, native: bool, a: Frame, snap: Snapshot) {
    && a.cur.Some? && a.cur.value.built.Some?
    && Steady(select, native, a.cur.value.built.value.mapping, a.cur.value.built.value.state.selfMri, a.applied, snap)
  }

  /** What the next refresh starts from: the JS engine advances the high-water mark, the native one recomputes everything. */
  function NextBuilt(native: bool, b: Built, snap: Snapshot): Built {
    if native then Built(b.mapping, StateOf(b.mapping, b.mapping.vote(MessageRecords(b.mapping, snap)), snap), SigsOf(b.mapping, snap))
    else b.(state := b.state.(maxSeq := snap.maxSeq))
  }

  /** After a delta the JS engine has moved its high-water mark and nothing else; the native one has voted again, listed the mapped stores again
      and signed the whole-store tables. */
  lemma NextIs(native: bool, b: Built, snap: Snapshot)
    ensures var next := NextBuilt(native, b, snap);
      && next.mapping == b.mapping && next.state.maxSeq == snap.maxSeq
      && (!native ==> next.sigs == b.sigs && next.state == b.state.(maxSeq := snap.maxSeq))
      && (native ==>
            && next.state.selfMri == b.mapping.vote(Records(snap, Targets(b.mapping, snap, MessageEntity)))
            && next.state.msgTargets == Targets(b.mapping, snap, MessageEntity)
            && next.state.convTargets == Targets(b.mapping, snap, ConversationEntity)
            && next.sigs == map[
                 ProfileEntity := EntitySig(snap, Targets(b.mapping, snap, ProfileEntity)),
                 EventEntity := EntitySig(snap, Targets(b.mapping, snap, EventEntity)),
                 CallEntity := EntitySig(snap, Targets(b.mapping, snap, CallEntity))])
  {
    hide Targets, EntitySig;
  }

  /** What a delta does to the tables: nothing when the high-water mark did not move, else it leaves the increment of the stored
      messages, with the native engine's skipped tables taken to be current. */
  ghost predicate DeltaContents(native: bool, b: Built, snap: Snapshot, c0: Contents, c1: Contents) {
    if snap.maxSeq == b.state.maxSeq then c1 == c0
    else
      (native ==> SkippedAreCurrent(b.mapping, b.sigs, snap, c0)) ==>
        exists book :: IsIncrement(b.mapping, b.state, snap, c0.messages, book, false, c1)
  }

  /** A delta was applied to a store with the same mapped stores; the result is faithful iff the store was and the step
      could be relied on. */
  ghost predicate DeltaTaken(select: Snapshot -> Option<Mapping>, native: bool, a: Frame, snap: Snapshot, b: Frame) {
    && !snap.lossy && SameStores(a, snap) && b.cur.Some? && b.cur.value.built == Some(NextBuilt(native, a.cur.value.built.value, snap))
    && a.served.Some? && b.served.Some? && DeltaContents(native, a.cur.value.built.value, snap, a.served.value, b.served.value)
    && b.applied == snap && b.faithful == (a.faithful && StepsTo(select, native, a, snap))
    && b.named == BothIds(a.named, IdsOf(b.served.value))
    && b.complete == a.complete && b.increments == a.increments + 1 && b.lastFullAt == a.lastFullAt
  }

  /** One more increment on the counter. */
  function Counted(a: Frame): Frame {
    a.(increments := a.increments + 1)
  }

  /** The served store is the full build of `snap`, if any mapping matched it, and the backstop counter restarts; a matched
      store gives way to a complete build only. */
  ghost predicate FullTaken(select: Snapshot -> Option<Mapping>, a: Frame, snap: Snapshot, lossy: bool, now: int, b: Frame) {
    && (lossy ==> a.cur == None || a.cur.value.built == None) && (snap.lossy ==> lossy)
    && b.cur.Some? && b.faithful == b.cur.value.built.Some? == select(snap).Some?
    && b.served.Some? && b.named == IdsOf(b.served.value)
    && b.applied == snap && b.complete == !lossy && b.increments == 0 && b.lastFullAt == now
  }

  ghost predicate Took(select: Snapshot -> Option<Mapping>, native: bool, t: Tick, step: Step, a: Frame, b: Frame) {
    match step
    case Stayed => b == a
    case Rebuilt(snap, lossy) => snap in Reads(t) && FullTaken(select, a, snap, lossy, t.now, b)
    case Stepped(snap) => snap in Reads(t) && DeltaTaken(select, native, a, snap, b)
  }

  // ---- what a refresh decides ----

  datatype Policy = Policy(native: bool, reuseOffered: bool, copyReuse: bool, isStatic: bool, maxIncrementals: nat, fullIntervalMs: int)

  datatype Verdict = Verdict(threw: bool, step: Step)

  /** The fast path's verdict, and whether it leaves a full rebuild demanded. */
  datatype Fast = Fast(handled: bool, step: Step, latch: bool)

  predicate IsMatched(a: Frame) {
    a.cur.Some? && a.cur.value.built.Some?
  }

  /** The native engine keeps its handle in the state, so its state is never null. */
  predicate Stateful(native: bool, a: Frame) {
    a.cur.Some? && (native || a.cur.value.built.Some?)
  }

  /** The backstops: nothing to refresh from, too many increments, or too long since the last full. */
  predicate Due(p: Policy, a: Frame, now: int) {
    !Stateful(p.native, a) || a.increments >= p.maxIncrementals || now - a.lastFullAt > p.fullIntervalMs
  }

  ghost function AnswerTo(native: bool, a: Frame, snap: Snapshot, seen: Glance): Answer {
    if native && seen.unmoved then KeepCurrent
    else if !IsMatched(a) || (native && !seen.usable) then NeedRebuild
    else if snap.lossy then KeepCurrent
    else if !SameStores(a, snap) then NeedRebuild
    else InPlace
  }

  ghost function ReuseAnswer(native: bool, a: Frame, snap: Snapshot, compacted: bool, seen: Glance): Answer {
    if (!native && snap.lossy) || (native && seen.unmoved) then KeepCurrent
    else if native && (!IsMatched(a) || !seen.usable) then NeedRebuild
    else if compacted then Defer
    else AnswerTo(native, a, snap, seen)
  }

  /** The live directory is found and could be copied, or the source is a static directory. */
  predicate Readable(p: Policy, t: Tick) {
    p.isStatic || (t.live && t.copy.Copied?)
  }

  predicate CopyLossy(p: Policy, t: Tick) {
    !p.isStatic && t.copy.Copied? && t.copy.lossy
  }

  function FullVerdict(a: Frame, attempt: Attempt, snapLossy: bool): Verdict {
    if attempt.FullThrew? then Verdict(true, Stayed)
    else if (snapLossy || attempt.snap.lossy) && IsMatched(a) then Verdict(false, Stayed)
    else Verdict(false, Rebuilt(attempt.snap, snapLossy || attempt.snap.lossy))
  }

  ghost function ReparseVerdict(p: Policy, a: Frame, t: Tick, snapLossy: bool): Verdict {
    var answer := AnswerTo(p.native, a, t.delta, t.copied);
    if t.refreshThrows then FullVerdict(a, t.full, snapLossy)
    else if answer == InPlace then Verdict(false, Stepped(t.delta))
    else if answer == KeepCurrent then Verdict(false, Stayed)
    else FullVerdict(a, if t.full.FullThrew? then t.again else t.full, snapLossy)
  }

  ghost function ApplyVerdict(p: Policy, a: Frame, pending: bool, forceFull: bool, t: Tick, snapLossy: bool): Verdict {
    if forceFull || pending || Due(p, a, t.now) then FullVerdict(a, t.full, snapLossy)
    else if snapLossy then Verdict(false, Stayed)
    else ReparseVerdict(p, a, t, snapLossy)
  }

  ghost function ReadVerdict(p: Policy, a: Frame, pending: bool, forceFull: bool, t: Tick): Verdict {
    if !Readable(p, t) then Verdict(true, Stayed) else ApplyVerdict(p, a, pending, forceFull, t, CopyLossy(p, t))
  }

  ghost function ReuseVerdict(p: Policy, a: Frame, hasDir: bool, t: Tick): Fast {
    if !p.copyReuse || p.isStatic || !hasDir || Due(p, a, t.early) || !p.reuseOffered || !t.reuseLive then Fast(false, Stayed, false)
    else MirrorVerdict(p, a, t)
  }

  ghost function MirrorVerdict(p: Policy, a: Frame, t: Tick): Fast {
    if t.mirror == MirrorLossy then Fast(true, Stayed, false)
    else if t.mirror == MirrorThrew || t.reuse.ReuseThrew? then Fast(false, Stayed, true)
    else FastOf(ReuseAnswer(p.native, a, t.reuse.snap, t.reuse.compacted, t.mirrored), t.reuse.snap)
  }

  /** A deferred read is left to the fresh copy, a rebuild asked for is latched. */
  function FastOf(answer: Answer, snap: Snapshot): Fast {
    match answer
    case KeepCurrent => Fast(true, Stayed, false)
    case InPlace => Fast(true, Stepped(snap), false)
    case NeedRebuild => Fast(false, Stayed, true)
    case _ => Fast(false, Stayed, false)
  }

  ghost function RefreshVerdict(p: Policy, a: Frame, pending: bool, hasDir: bool, forceFull: bool, t: Tick): Verdict {
    var fast := ReuseVerdict(p, a, hasDir, t);
    if !forceFull && fast.handled then Verdict(false, fast.step)
    else ReadVerdict(p, a, pending || (!forceFull && fast.latch), forceFull, t)
  }

  lemma FastHandles(p: Policy, a: Frame, hasDir: bool, t: Tick)
    ensures var fast := ReuseVerdict(p, a, hasDir, t); fast.handled ==> !fast.latch && !p.isStatic
  {
  }

  /** A full that is forced or due at both looks at the clock happens whenever the source can be read and built from; only a lossy
      read over a matched store is turned away. */
  lemma DueFullHappens(p: Policy, a: Frame, pending: bool, hasDir: bool, forceFull: bool, t: Tick)
    requires forceFull || (Due(p, a, t.early) && (pending || Due(p, a, t.now)))
    requires Readable(p, t) && t.full.Loaded?
    ensures var v := RefreshVerdict(p, a, pending, hasDir, forceFull, t); var lossy := CopyLossy(p, t) || t.full.snap.lossy;
      !v.threw && if lossy && IsMatched(a) then v.step == Stayed else v.step == Rebuilt(t.full.snap, lossy)
  {
  }

  /** Increments stay within both backstops, and only a complete read of unmoved mapped stores is ever applied as one. */
  lemma SteppedWithinBackstops(p: Policy, a: Frame, pending: bool, hasDir: bool, forceFull: bool, t: Tick)
    ensures var v := RefreshVerdict(p, a, pending, hasDir, forceFull, t);
      v.step.Stepped? ==>
        && !forceFull && a.increments < p.maxIncrementals && !v.step.snap.lossy && SameStores(a, v.step.snap)
        && (t.early - a.lastFullAt <= p.fullIntervalMs || t.now - a.lastFullAt <= p.fullIntervalMs)
  {
  }

  /** Whether a full is demanded after the tick: the latch is spent on any source that could be read. */
  ghost predicate LatchAfter(p: Policy, a: Frame, pending: bool, hasDir: bool, forceFull: bool, t: Tick) {
    var fast := ReuseVerdict(p, a, hasDir, t);
    if !forceFull && fast.handled then pending else (pending || (!forceFull && fast.latch)) && !Readable(p, t)
  }

  /** A latched full happens exactly when the fast path, which does not look at the latch, leaves the tick alone and the source can be
      read and built from; the latch outlives the tick exactly when the fast path handled it or the source could not be read. */
  lemma LatchedFullHappens(p: Policy, a: Frame, hasDir: bool, t: Tick)
    ensures var v, handled := RefreshVerdict(p, a, true, hasDir, false, t), ReuseVerdict(p, a, hasDir, t).handled;
      && (v.step.Rebuilt? <==>
          && !handled && Readable(p, t) && t.full.Loaded?
          && !((CopyLossy(p, t) || t.full.snap.lossy) && IsMatched(a)))
      && (v.step.Rebuilt? ==> v.step.snap == t.full.snap)
      && (LatchAfter(p, a, true, hasDir, false, t) <==> handled || !Readable(p, t))
  {
  }

  /** A mirror that throws latches a full, but the copy fails too; the next tick mirrors well and applies an increment although a full is
      still demanded. */
  lemma LatchOvertaken(a: Frame, snap: Snapshot)
    requires IsMatched(a) && SameStores(a, snap) && !snap.lossy && a.increments == 0 && a.lastFullAt == 0
    ensures var p, fine := Policy(false, true, true, false, 10, 1000), Glance(false, true);
      var bad := Tick(true, 0, MirrorThrew, fine, ReuseThrew, true, CopyThrew, 0, fine, false, snap, FullThrew, FullThrew, None);
      var good := bad.(mirror := Mirrored, reuse := Reused(snap, false));
      && LatchAfter(p, a, false, true, false, bad) && RefreshVerdict(p, a, false, true, false, bad) == Verdict(true, Stayed)
      && RefreshVerdict(p, a, true, true, false, good) == Verdict(false, Stepped(snap)) && LatchAfter(p, a, true, true, false, good)
  {
    hide SameStores;
  }

  /** The second attempt at a rebuild is looked at exactly when the engine asked for the first one and that threw. */
  lemma SecondAttempt(p: Policy, a: Frame, t: Tick, snapLossy: bool)
    ensures (exists x :: ReparseVerdict(p, a, t.(again := x), snapLossy) != ReparseVerdict(p, a, t, snapLossy))
      <==> !t.refreshThrows && AnswerTo(p.native, a, t.delta, t.copied) == NeedRebuild && t.full.FullThrew?
  {
    if !t.refreshThrows && AnswerTo(p.native, a, t.delta, t.copied) == NeedRebuild && t.full.FullThrew? {
      var x := if t.again.FullThrew? then Loaded(t.delta) else FullThrew;
      assert ReparseVerdict(p, a, t.(again := x), snapLossy) != ReparseVerdict(p, a, t, snapLossy);
    }
  }

  /** A served file that cannot be built on, a rebuild that throws, and the attempt after it that serves. */
  lemma SecondAttemptServes(a: Frame, snap: Snapshot)
    requires !snap.lossy
    ensures var p, gone := Policy(true, false, false, false, 10, 1000), Glance(false, false);
      var t := Tick(true, 0, MirrorThrew, gone, ReuseThrew, true, Copied(false), 0, gone, false, snap, FullThrew, Loaded(snap), None);
      ReparseVerdict(p, a, t, false) == Verdict(false, Rebuilt(snap, false))
  {
  }

  // ---- the decisions, told by what the tick brings ----

  ghost predicate Selected(mapping: Mapping, snap: Snapshot, e: Entity, sk: string) {
    sk in snap.catalog && snap.catalog[sk].db.Some? && mapping.selects(e, snap.catalog[sk])
  }

  /** Some store is mapped in `snap` and was not at the full ingest, or the other way round. */
  ghost predicate Moved(b: Built, snap: Snapshot) {
    exists sk ::
      || (sk in b.state.msgTargets) != Selected(b.mapping, snap, MessageEntity, sk)
      || (sk in b.state.convTargets) != Selected(b.mapping, snap, ConversationEntity, sk)
  }

  lemma MovedTrips(b: Built, snap: Snapshot)
    ensures Moved(b, snap) <==> !SameTargets(b.mapping, b.state, snap)
  {
    assert forall e, sk :: Selected(b.mapping, snap, e, sk) <==> sk in TargetSet(b.mapping, snap, e);
    if !Moved(b, snap) {
      assert forall sk :: sk in b.state.msgTargets <==> Selected(b.mapping, snap, MessageEntity, sk);
      assert forall sk :: sk in b.state.convTargets <==> Selected(b.mapping, snap, ConversationEntity, sk);
      assert TargetSet(b.mapping, snap, MessageEntity) == Elems(b.state.msgTargets);
      assert TargetSet(b.mapping, snap, ConversationEntity) == Elems(b.state.convTargets);
    }
    if SameTargets(b.mapping, b.state, snap) {
      forall sk
        ensures (sk in b.state.msgTargets) == Selected(b.mapping, snap, MessageEntity, sk)
        ensures (sk in b.state.convTargets) == Selected(b.mapping, snap, ConversationEntity, sk)
      {
        assert sk in b.state.msgTargets <==> sk in Elems(b.state.msgTargets);
        assert sk in b.state.convTargets <==> sk in Elems(b.state.convTargets);
      }
    }
  }

  /** The read can be applied: a store that was built, still there to build on and behind, a complete read, and no store moved. */
  ghost predicate Applies(native: bool, a: Frame, snap: Snapshot, seen: Glance) {
    && a.cur.Some? && a.cur.value.built.Some? && (native ==> !seen.unmoved && seen.usable)
    && !snap.lossy && !Moved(a.cur.value.built.value, snap)
  }

  /** The read demands a rebuild: nothing to build on, or a complete read in which a store moved. */
  ghost predicate Demands(native: bool, a: Frame, snap: Snapshot, seen: Glance) {
    && (native ==> !seen.unmoved)
    && (a.cur == None || a.cur.value.built == None || (native && !seen.usable) || (!snap.lossy && Moved(a.cur.value.built.value, snap)))
  }

  /** The fast path is tried: it is offered, a mirror is kept, the live directory is found, and both backstops are open. */
  ghost predicate Tried(p: Policy, a: Frame, hasDir: bool, t: Tick) {
    && p.copyReuse && p.reuseOffered && !p.isStatic && hasDir && t.reuseLive
    && a.cur.Some? && (p.native || a.cur.value.built.Some?)
    && a.increments < p.maxIncrementals && t.early - a.lastFullAt <= p.fullIntervalMs
  }

  ghost predicate FastApplied(p: Policy, a: Frame, hasDir: bool, t: Tick) {
    && Tried(p, a, hasDir, t) && t.mirror == Mirrored && t.reuse.Reused?
    && !t.reuse.compacted && Applies(p.native, a, t.reuse.snap, t.mirrored)
  }

  /** The mirror was lossy, the native engine saw nothing move, or the read was lossy. */
  ghost predicate FastKept(p: Policy, a: Frame, hasDir: bool, t: Tick) {
    && Tried(p, a, hasDir, t) && t.mirror != MirrorThrew
    && (|| t.mirror == MirrorLossy
        || (&& t.reuse.Reused?
            && (if p.native then
                  t.mirrored.unmoved || (t.reuse.snap.lossy && !t.reuse.compacted && t.mirrored.usable && a.cur.value.built.Some?)
                else t.reuse.snap.lossy)))
  }

  /** Something threw, or the engine demands a rebuild; over a compacted mirror the JS engine leaves that to the fresh copy, and the native one
      looks no further than at the file it would build on. */
  ghost predicate FastLatched(p: Policy, a: Frame, hasDir: bool, t: Tick) {
    && Tried(p, a, hasDir, t) && t.mirror != MirrorLossy
    && (|| t.mirror == MirrorThrew || t.reuse.ReuseThrew?
        || (&& Demands(p.native, a, t.reuse.snap, t.mirrored)
            && (t.reuse.compacted ==> p.native && (!t.mirrored.usable || a.cur.value.built == None))))
  }

  ghost predicate FastDecides(p: Policy, a: Frame, hasDir: bool, forceFull: bool, t: Tick) {
    !forceFull && (FastApplied(p, a, hasDir, t) || FastKept(p, a, hasDir, t))
  }

  ghost predicate CanRead(p: Policy, t: Tick) {
    p.isStatic || (t.live && t.copy.Copied?)
  }

  ghost predicate LossyCopy(p: Policy, t: Tick) {
    !p.isStatic && t.copy.Copied? && t.copy.lossy
  }

  /** A full is wanted before anything is read: forced, latched, nothing to refresh from, or a backstop reached. */
  ghost predicate Wanted(p: Policy, a: Frame, pending: bool, hasDir: bool, forceFull: bool, t: Tick) {
    || forceFull || pending || FastLatched(p, a, hasDir, t)
    || a.cur == None || (!p.native && a.cur.value.built == None)
    || a.increments >= p.maxIncrementals || t.now - a.lastFullAt > p.fullIntervalMs
  }

  /** The incremental engine throws or demands a rebuild. */
  ghost predicate FellBack(p: Policy, a: Frame, t: Tick) {
    !LossyCopy(p, t) && (t.refreshThrows || Demands(p.native, a, t.delta, t.copied))
  }

  /** The attempt at a full build that counts: a second one after a demanded one threw. */
  ghost function FinalAttempt(p: Policy, a: Frame, pending: bool, hasDir: bool, forceFull: bool, t: Tick): Attempt {
    if !Wanted(p, a, pending, hasDir, forceFull, t) && !t.refreshThrows && t.full.FullThrew? then t.again else t.full
  }

  /** What a refresh comes to. */
  ghost predicate Decided(p: Policy, a: Frame, pending: bool, hasDir: bool, forceFull: bool, t: Tick, threw: bool, step: Step, latch: bool) {
    var fast, wanted := FastDecides(p, a, hasDir, forceFull, t), Wanted(p, a, pending, hasDir, forceFull, t);
    var attempt := FinalAttempt(p, a, pending, hasDir, forceFull, t);
    var full := !fast && CanRead(p, t) && (wanted || FellBack(p, a, t));
    && (threw <==> !fast && (!CanRead(p, t) || (full && attempt.FullThrew?)))
    && (step.Rebuilt? <==> full && attempt.Loaded? && !((LossyCopy(p, t) || attempt.snap.lossy) && IsMatched(a)))
    && (step.Rebuilt? ==> step == Rebuilt(attempt.snap, LossyCopy(p, t) || attempt.snap.lossy))
    && (step.Stepped? <==>
        || (fast && FastApplied(p, a, hasDir, t))
        || (&& !fast && CanRead(p, t) && !wanted && !LossyCopy(p, t) && !t.refreshThrows && Applies(p.native, a, t.delta, t.copied)))
    && (step.Stepped? ==> step.snap == if fast then t.reuse.snap else t.delta)
    && (latch <==> if fast then pending else (pending || (!forceFull && FastLatched(p, a, hasDir, t))) && !CanRead(p, t))
  }

  lemma Answers(native: bool, a: Frame, snap: Snapshot, seen: Glance)
    ensures AnswerTo(native, a, snap, seen) == InPlace <==> Applies(native, a, snap, seen)
    ensures AnswerTo(native, a, snap, seen) == NeedRebuild <==> Demands(native, a, snap, seen)
    ensures AnswerTo(native, a, snap, seen) == KeepCurrent <==> !Applies(native, a, snap, seen) && !Demands(native, a, snap, seen)
  {
    hide Moved, SameTargets;
    if IsMatched(a) {
      MovedTrips(a.cur.value.built.value, snap);
    }
  }

  lemma FastTable(p: Policy, a: Frame, hasDir: bool, t: Tick)
    ensures var fast := ReuseVerdict(p, a, hasDir, t);
      && (fast.handled <==> FastApplied(p, a, hasDir, t) || FastKept(p, a, hasDir, t))
      && (fast.step == (if FastApplied(p, a, hasDir, t) then Stepped(t.reuse.snap) else Stayed))
      && (fast.latch <==> FastLatched(p, a, hasDir, t))
  {
    hide Moved, SameTargets, AnswerTo;
    if t.reuse.Reused? {
      Answers(p.native, a, t.reuse.snap, t.mirrored);
    }
  }

  /** Main result: what a refresh throws, rebuilds, applies, keeps and latches, told by what the tick brings alone. */
  lemma RefreshTable(p: Policy, a: Frame, pending: bool, hasDir: bool, forceFull: bool, t: Tick)
    ensures var v := RefreshVerdict(p, a, pending, hasDir, forceFull, t);
      Decided(p, a, pending, hasDir, forceFull, t, v.threw, v.step, LatchAfter(p, a, pending, hasDir, forceFull, t))
  {
    hide Moved, SameTargets, AnswerTo, ReuseVerdict, Tried, Applies, Demands;
    FastTable(p, a, hasDir, t);
    Answers(p.native, a, t.delta, t.copied);
    AppliesMatched(p.native, a, t.delta, t.copied);
  }

  lemma AppliesMatched(native: bool, a: Frame, snap: Snapshot, seen: Glance)
    ensures !(Applies(native, a, snap, seen) && Demands(native, a, snap, seen))
  {
  }

  /** The schema tripwire: when nothing earlier in the tick decides and a complete read of a matched store has a mapped store more or fewer than
      the full ingest had, the store is replaced by what the full build loads. */
  lemma MovedStoresRebuild(p: Policy, a: Frame, hasDir: bool, t: Tick)
    requires IsMatched(a) && !t.delta.lossy && Moved(a.cur.value.built.value, t.delta) && (p.native ==> !t.copied.unmoved)
    requires !p.copyReuse && a.increments < p.maxIncrementals && t.now - a.lastFullAt <= p.fullIntervalMs
    requires CanRead(p, t) && !LossyCopy(p, t) && !t.refreshThrows && t.full.Loaded? && !t.full.snap.lossy
    ensures RefreshVerdict(p, a, false, hasDir, false, t) == Verdict(false, Rebuilt(t.full.snap, false))
  {
    hide Moved, SameTargets, AnswerTo, RefreshVerdict;
    RefreshTable(p, a, false, hasDir, false, t);
  }

  /** The same over an uncompacted mirror: the fast path leaves the tick alone with a full demanded, so the fresh copy is built from. */
  lemma MovedStoresLatch(p: Policy, a: Frame, t: Tick)
    requires IsMatched(a) && Tried(p, a, true, t) && t.mirror == Mirrored && t.reuse.Reused? && !t.reuse.compacted
    requires !t.reuse.snap.lossy && Moved(a.cur.value.built.value, t.reuse.snap) && (p.native ==> !t.mirrored.unmoved)
    ensures ReuseVerdict(p, a, true, t) == Fast(false, Stayed, true)
    ensures !CanRead(p, t) ==> LatchAfter(p, a, false, true, false, t)
    ensures CanRead(p, t) && t.full.Loaded? && !LossyCopy(p, t) && !t.full.snap.lossy ==>
      RefreshVerdict(p, a, false, true, false, t) == Verdict(false, Rebuilt(t.full.snap, false))
  {
    hide Moved, SameTargets, AnswerTo, RefreshVerdict, LatchAfter;
    FastTable(p, a, true, t);
    AppliesMatched(p.native, a, t.reuse.snap, t.mirrored);
    RefreshTable(p, a, false, true, false, t);
  }

  lemma TookNothing(select: Snapshot -> Option<Mapping>, native: bool, t: Tick, a: Frame)
    ensures Took(select, native, t, Stayed, a, a) && !CaughtUp(Stayed)
  {
  }

  lemma TookDelta(select: Snapshot -> Option<Mapping>, native: bool, t: Tick, snap: Snapshot, a: Frame, b: Frame)
    requires DeltaTaken(select, native, a, snap, b) && snap in Reads(t)
    ensures Took(select, native, t, Stepped(snap), a, b) && CaughtUp(Stepped(snap))
  {
  }

  class Session {
    const select: Snapshot -> Option<Mapping>
    const sha: Hash
    const ftsEnabled: bool
    const native: bool
    const reuseOffered: bool
    const copyReuse: bool
    const isStatic: bool
    const maxIncrementals: nat
    const fullIntervalMs: int

    var cur: Option<Ingested>
    var snapshotDir: Option<nat>
    var lastProbe: Option<nat>
    var lastFullAt: int
    var incrementalsSinceFull: nat
    var pendingFull: bool

    /** The temporary directories that exist, and the next name `mkdtemp` hands out. */
    var dirs: set<nat>
    var nextDir: nat

    /** Every store the session was ever handed, and the objects they consist of. */
    ghost var stores: set<ChatStore>
    ghost var repr: set<object>

    /** The snapshot last fully read and applied, whether the served store is exactly its full build, and whether it was complete. */
    ghost var applied: Snapshot
    ghost var faithful: bool
    ghost var complete: bool

    /** Every id that was given a handle since the last full build. */
    ghost var named: Ids

    /** Exactly the served store is open. */
    ghost predicate OnlyServedOpen()
      reads this`cur, this`stores, this`repr, repr
    {
      && (forall s :: s in stores ==> s in repr && s.handles in repr)
      && (cur.Some? ==> cur.value.store in stores)
      && (forall s :: s in stores ==> (s.isOpen <==> cur.Some? && s == cur.value.store))
    }

    /** The only temporary directory is `snapshotDir`, and the backstop counter is within its limit. */
    ghost predicate Tidy()
      reads this`dirs, this`snapshotDir, this`nextDir, this`incrementalsSinceFull
    {
      && dirs == (if snapshotDir.Some? then {snapshotDir.value} else {})
      && (forall d :: d in dirs ==> d < nextDir)
      && (isStatic ==> snapshotDir.None?)
      && incrementalsSinceFull <= maxIncrementals
    }

    /** A store's allocator started empty and named only `ids` since. */
    ghost predicate HasNamed(store: ChatStore, ids: Ids)
      reads store.handles
    {
      store.handles.sha == sha && NamesOnly(sha, EMPTY, store.handles.State(), ids)
    }

    /** A faithful store is the full ingest of the snapshot last applied. */
    ghost predicate Worth()
      reads this`cur, this`faithful, this`applied, this`named
      reads if cur.Some? then {cur.value.store, cur.value.store.handles} else {}
    {
      && (cur.Some? ==> Usable(cur.value) && HasNamed(cur.value.store, named))
      && (faithful ==> cur.Some? && IsIngestOf(cur.value, applied))
    }

    ghost predicate Sound()
      reads this`cur, this`stores, this`repr, this`faithful, this`applied, this`named, repr
    {
      this !in repr && OnlyServedOpen() && Worth()
    }

    ghost predicate Valid()
      reads this, repr
    {
      Sound() && Tidy()
    }

    ghost function Served(): Option<Contents>
      reads this`cur
      reads if cur.Some? then {cur.value.store} else {}
    {
      if cur.None? then None else Some(cur.value.store.View())
    }

    ghost predicate Usable(next: Ingested)
      reads next.store, next.store.handles
    {
      && next.store.Valid() && next.store.PeopleNamed()
      && (next.built.Some? ==> Listed(next.built.value))
    }

    ghost function Now(): Frame
      reads this`cur, this`applied, this`faithful, this`complete, this`named, this`incrementalsSinceFull, this`lastFullAt
      reads if cur.Some? then {cur.value.store} else {}
    {
      Frame(cur, Served(), applied, faithful, complete, named, incrementalsSinceFull, lastFullAt)
    }

    predicate Matched()
      reads this`cur
    {
      cur.Some? && cur.value.built.Some?
    }

    function Config(): Policy {
      Policy(native, reuseOffered, copyReuse, isStatic, maxIncrementals, fullIntervalMs)
    }

    /** The store and its state are those of a full ingest of `snap`. */
    ghost predicate IsIngestOf(next: Ingested, snap: Snapshot)
      reads next.store, next.store.handles
    {
      && next.built.Some?
      && IsFullIngest(select, native, snap, next.built.value, next.store.handles.handleByFull, next.store.IndexLive(), next.store.View())
    }

    predicate HasState()
      reads this`cur
    {
      cur.Some? && (native || cur.value.built.Some?)
    }

    predicate FullDue(now: int)
      reads this`cur, this`incrementalsSinceFull, this`lastFullAt
    {
      !HasState() || incrementalsSinceFull >= maxIncrementals || now - lastFullAt > fullIntervalMs
    }

    constructor (select: Snapshot -> Option<Mapping>, sha: Hash, ftsEnabled: bool, native: bool, reuseOffered: bool,
                 copyReuse: bool,
                 isStatic: bool, maxIncrementals: nat, fullIntervalMs: int)
      ensures Valid() && cur == None && !faithful && fresh(repr)
      ensures this.select == select && this.sha == sha && this.native == native && this.isStatic == isStatic
      ensures this.maxIncrementals == maxIncrementals && this.fullIntervalMs == fullIntervalMs
    {
      this.select, this.sha, this.ftsEnabled, this.native := select, sha, ftsEnabled, native;
      this.reuseOffered, this.copyReuse, this.isStatic := reuseOffered, copyReuse, isStatic;
      this.maxIncrementals, this.fullIntervalMs := maxIncrementals, fullIntervalMs;
      cur, snapshotDir, lastProbe := None, None, None;
      lastFullAt, incrementalsSinceFull, pendingFull := 0, 0, false;
      dirs, nextDir := {}, 0;
      stores, repr, faithful, complete, named := {}, {}, false, false, Ids({}, {});
    }

    // ---- the engines ----

    /** Build a store from everything the directory holds; without a matching mapping it stays empty. */
    method EngineFull(snap: Snapshot) returns (next: Ingested)
      ensures fresh(next.store) && fresh(next.store.handles) && next.store.isOpen && Usable(next)
      ensures next.built.Some? <==> select(snap).Some?
      ensures next.built.Some? ==> IsIngestOf(next, snap)
      ensures HasNamed(next.store, IdsOf(next.store.View()))
    {
      hide NamesOnly, Listed;
      var chosen := select(snap);
      if chosen.None? {
        var empty := new ChatStore(sha, ftsEnabled);
        NamesNobody(sha, EMPTY, IdsOf(empty.View()));
        return Ingested(empty, None);
      }
      var mapping := chosen.value;
      var self := mapping.vote(MessageRecords(mapping, snap));
      var store := BuildStore(mapping, self, snap, sha, ftsEnabled, false);
      next := Ingested(store, Some(Built(mapping, StateOf(mapping, self, snap), if native then SigsOf(mapping, snap) else map[])));
      ListedIs(next.built.value, snap);
      BuiltPeopleNamed(mapping, self, snap, store.handles.handleByFull, store.IndexLive(), store.View());
    }

    lemma StoresKept()
      requires Sound()
      ensures forall s :: s in stores ==> s in repr && s.handles in repr
      ensures cur.Some? ==> cur.value.store in stores
    {
    }

    /** Writing into the served store opens and closes nothing. */
    twostate lemma StaysServed()
      requires old(OnlyServedOpen()) && cur.Some? && old(cur).Some? && cur.value.store == old(cur.value.store)
      requires stores == old(stores) && repr == old(repr) && cur.value.store.isOpen == old(cur.value.store.isOpen)
      requires forall s :: s in stores && s != cur.value.store ==> s.isOpen == old(s.isOpen)
      ensures OnlyServedOpen()
    {
    }

    /** What a delta written into the served store makes of it. */
    method ApplyToServed(snap: Snapshot) returns (outcome: Outcome, next: Built)
      requires Sound() && Matched() && !native && ReadOnce(snap)
      modifies cur.value.store, cur.value.store.handles
      ensures var b := cur.value.built.value;
        && next == NextBuilt(false, b, snap)
        && outcome == (if snap.lossy then Skipped else if !SameTargets(b.mapping, b.state, snap) then NeedFull else Applied)
        && (outcome == Applied ==> DeltaContents(false, b, snap, old(cur.value.store.View()), cur.value.store.View()))
      ensures cur.value.store.isOpen == old(cur.value.store.isOpen)
      ensures outcome != Applied ==> Sound() && cur.value.store.View() == old(cur.value.store.View())
      ensures outcome == Applied ==>
        && OnlyServedOpen() && Usable(Ingested(cur.value.store, Some(next)))
        && HasNamed(cur.value.store, BothIds(named, IdsOf(cur.value.store.View())))
        && (faithful && old(StepsTo(select, native, Now(), snap)) ==> IsIngestOf(Ingested(cur.value.store, Some(next)), snap))
    {
      hide IsFullIngest, Steady, ReadOnce, ChatStore.Valid, ChatStore.PeopleNamed, ChatStore.View, ChatStore.IndexLive,
           SameTargets, DeltaContents,
           NamesOnly, NextBuilt, OnlyServedOpen;
      ghost var before := cur.value.store.handles.State();
      outcome, next := ApplyInPlace(select, cur.value.store, cur.value.built.value, snap, applied, faithful);
      StaysServed();
      if outcome == Applied {
        NamesTwice(sha, EMPTY, before, cur.value.store.handles.State(), named, IdsOf(cur.value.store.View()));
      }
    }

    /** The JS engine: apply the delta to the served store itself, then advance its high-water mark. */
    method JsRefresh(snap: Snapshot) returns (answer: Answer)
      requires Sound() && Matched() && !native && ReadOnce(snap)
      modifies this`cur, this`applied, this`faithful, this`named, cur.value.store, cur.value.store.handles
      ensures Sound() && cur.Some? && cur.value.store == old(cur.value.store)
      ensures answer == AnswerTo(false, old(Now()), snap, Glance(false, true)) && incrementalsSinceFull == old(incrementalsSinceFull)
      ensures answer == KeepCurrent <==> snap.lossy
      ensures answer == NeedRebuild <==> !snap.lossy && Moved(old(cur.value.built.value), snap)
      ensures answer == InPlace <==> !snap.lossy && !Moved(old(cur.value.built.value), snap)
      ensures if answer == InPlace then DeltaTaken(select, native, old(Now()), snap, Counted(Now())) else Now() == old(Now())
    {
      hide IsFullIngest, Steady, ReadOnce, ChatStore.Valid, ChatStore.PeopleNamed, ChatStore.View, ChatStore.IndexLive,
           SameTargets, DeltaContents,
           NextBuilt, OnlyServedOpen, HasNamed, Usable, IsIngestOf, Moved;
      ghost var good := StepsTo(select, native, Now(), snap);
      MovedTrips(cur.value.built.value, snap);
      var outcome, next := ApplyToServed(snap);
      if outcome != Applied {
        return if outcome == Skipped then KeepCurrent else NeedRebuild;
      }
      cur := Some(Ingested(cur.value.store, Some(next)));
      applied, faithful, named := snap, faithful && good, BothIds(named, IdsOf(cur.value.store.View()));
      StaysServed();
      answer := InPlace;
    }

    /** The native engine: apply the delta to a copy of the served file; the copy is dropped unless it was applied. A file it cannot
        build on is rebuilt without reading the source. */
    method NativeRefresh(snap: Snapshot, seen: Glance) returns (answer: Answer)
      requires Sound() && cur.Some? && native && ReadOnce(snap)
      modifies this`stores, this`repr
      ensures Sound() && fresh(repr - old(repr)) && old(repr) <= repr
      ensures answer != InPlace && (if answer.Swapped? then InPlace else answer) == AnswerTo(true, Now(), snap, seen)
      ensures answer == KeepCurrent <==> seen.unmoved || (cur.value.built.Some? && seen.usable && snap.lossy)
      ensures answer == NeedRebuild <==>
        !seen.unmoved && (cur.value.built.None? || !seen.usable || (!snap.lossy && Moved(cur.value.built.value, snap)))
      ensures answer.Swapped? <==>
        !seen.unmoved && cur.value.built.Some? && seen.usable && !snap.lossy && !Moved(cur.value.built.value, snap)
      ensures answer.Swapped? ==>
        Matched() && IsNext(answer.next) && answer.next.built == Some(NextBuilt(true, cur.value.built.value, snap))
      ensures answer.Swapped? ==> fresh(answer.next.store) && fresh(answer.next.store.handles)
      ensures answer.Swapped? ==> DeltaContents(true, cur.value.built.value, snap, cur.value.store.View(), answer.next.store.View())
      ensures answer.Swapped? ==> HasNamed(answer.next.store, BothIds(named, IdsOf(answer.next.store.View())))
      ensures answer.Swapped? && faithful && StepsTo(select, native, Now(), snap) ==> IsIngestOf(answer.next, snap)
    {
      hide IsFullIngest, Steady, ReadOnce, ChatStore.Valid, ChatStore.PeopleNamed, ChatStore.View, ChatStore.IndexLive,
           SameTargets, DeltaContents, OnlyServedOpen, NamesOnly, Listed, Moved;
      if cur.value.built.Some? {
        MovedTrips(cur.value.built.value, snap);
      }
      if seen.unmoved {
        return KeepCurrent;
      }
      if cur.value.built.None? || !seen.usable {
        return NeedRebuild;
      }
      var outcome, store, next := ApplyToCopy(select, cur.value.store, cur.value.built.value, snap, applied, faithful);
      if outcome != Applied {
        Discard(store);
        return if outcome == Skipped then KeepCurrent else NeedRebuild;
      }
      NamesTwice(sha, EMPTY, cur.value.store.handles.State(), store.handles.State(), named, IdsOf(store.View()));
      answer := Swapped(Ingested(store, Some(next)));
    }

    /** Drop a store that is not served. */
    method Discard(store: ChatStore)
      requires Sound() && store !in repr && store.handles !in repr
      modifies this`stores, this`repr, store`isOpen
      ensures Sound() && repr == old(repr) + {store, store.handles} && Now() == old(Now())
    {
      hide IsFullIngest, ChatStore.Valid, ChatStore.PeopleNamed, ChatStore.View, ChatStore.IndexLive;
      store.Close();
      stores, repr := stores + {store}, repr + {store, store.handles};
    }

    /** A store an engine hands over: open, well-formed, not yet the session's. */
    ghost predicate IsNext(next: Ingested)
      reads this`repr, next.store, next.store.handles
    {
      && next.store !in repr && next.store.handles !in repr
      && next.store.isOpen && Usable(next)
    }

    /** Taking in an open store and closing the one served before leaves exactly the new one open. */
    twostate lemma Replaced()
      requires old(OnlyServedOpen()) && cur.Some? && cur.value.store.isOpen
      requires stores == old(stores) + {cur.value.store} && repr == old(repr) + {cur.value.store, cur.value.store.handles}
      requires cur.value.store !in old(stores)
      requires forall s :: s in old(stores) ==>
        s.isOpen == (old(s.isOpen) && Some(s) != if old(cur).Some? then Some(old(cur).value.store) else None)
      ensures OnlyServedOpen()
    {
    }

    /** Serve `next` and close what was served before. */
    method Adopt(next: Ingested, ghost snap: Snapshot, ghost good: bool, ghost ids: Ids)
      requires Sound() && IsNext(next) && (good ==> IsIngestOf(next, snap)) && HasNamed(next.store, ids)
      modifies this`cur, this`stores, this`repr, this`applied, this`faithful, this`named
      modifies if cur.Some? then {cur.value.store} else {}
      ensures Sound() && cur == Some(next) && applied == snap && faithful == good && named == ids
      ensures repr == old(repr) + {next.store, next.store.handles}
    {
      hide IsFullIngest, ChatStore.Valid, ChatStore.PeopleNamed, ChatStore.View, ChatStore.IndexLive, Usable, HasNamed,
           OnlyServedOpen;
      StoresKept();
      var prev := cur;
      cur := Some(next);
      if prev.Some? {
        prev.value.store.Close();
      }
      stores, repr := stores + {next.store}, repr + {next.store, next.store.handles};
      applied, faithful, named := snap, good, ids;
      Replaced();
    }

    /** The native engine's step: serve the file it produced, if it did. */
    method NativeStep(snap: Snapshot, seen: Glance) returns (answer: Answer)
      requires Sound() && cur.Some? && native && ReadOnce(snap)
      modifies this`cur, this`stores, this`repr, this`applied, this`faithful, this`named, repr
      ensures Sound() && fresh(repr - old(repr)) && answer == AnswerTo(true, old(Now()), snap, seen)
      ensures if answer == InPlace then DeltaTaken(select, native, old(Now()), snap, Counted(Now())) else Now() == old(Now())
    {
      hide IsFullIngest, Steady, ReadOnce, ChatStore.Valid, ChatStore.PeopleNamed, ChatStore.View, ChatStore.IndexLive,
           SameTargets, NextBuilt,
           DeltaContents, NamesOnly, OnlyServedOpen, Worth, IsNext;
      ghost var good := faithful && StepsTo(select, native, Now(), snap);
      StoresKept();
      answer := NativeRefresh(snap, seen);
      if answer.Swapped? {
        Adopt(answer.next, snap, good, BothIds(named, IdsOf(answer.next.store.View())));
        answer := InPlace;
      }
    }

    /** One incremental engine call and what the session does with its answer; true when the delta was applied. */
    method EngineRefresh(snap: Snapshot, seen: Glance) returns (answer: Answer)
      requires Sound() && HasState() && ReadOnce(snap)
      modifies this`cur, this`stores, this`repr, this`applied, this`faithful, this`named, this`incrementalsSinceFull, repr
      ensures Sound() && fresh(repr - old(repr)) && answer == AnswerTo(native, old(Now()), snap, seen)
      ensures incrementalsSinceFull <= old(incrementalsSinceFull) + 1
      ensures if answer == InPlace then DeltaTaken(select, native, old(Now()), snap, Now()) else Now() == old(Now())
    {
      hide IsFullIngest, ReadOnce, OnlyServedOpen, Worth, DeltaTaken, SameStores;
      if native {
        answer := NativeStep(snap, seen);
      } else {
        StoresKept();
        answer := JsRefresh(snap);
      }
      if answer == InPlace {
        incrementalsSinceFull := incrementalsSinceFull + 1;
      }
    }

    /** Serve a full build and restart the backstops. */
    method ServeBuild(next: Ingested, lossy: bool, now: int, ghost snap: Snapshot)
      requires Sound() && IsNext(next) && HasNamed(next.store, IdsOf(next.store.View()))
      requires (lossy ==> !Matched()) && (snap.lossy ==> lossy)
      requires (next.built.Some? <==> select(snap).Some?) && (next.built.Some? ==> IsIngestOf(next, snap))
      modifies this`cur, this`stores, this`repr, this`applied, this`faithful, this`complete, this`named, this`incrementalsSinceFull,
               this`lastFullAt, repr
      ensures Sound() && repr == old(repr) + {next.store, next.store.handles}
      ensures FullTaken(select, old(Now()), snap, lossy, now, Now())
    {
      hide IsFullIngest, ChatStore.Valid, ChatStore.PeopleNamed, ChatStore.View, ChatStore.IndexLive, OnlyServedOpen, Worth,
           HasNamed, Usable, IsIngestOf, Listed;
      StoresKept();
      Adopt(next, snap, next.built.Some?, IdsOf(next.store.View()));
      lastFullAt, incrementalsSinceFull := now, 0;
      complete := !lossy;
    }

    /** Rebuild from everything the directory holds. A build off a lossy read replaces only a store that matched no mapping. */
    method DoFull(attempt: Attempt, snapLossy: bool, now: int) returns (threw: bool, step: Step)
      requires Sound()
      modifies this`cur, this`stores, this`repr, this`applied, this`faithful, this`complete, this`named,
               this`incrementalsSinceFull,
               this`lastFullAt, repr
      ensures Sound() && fresh(repr - old(repr))
      ensures Verdict(threw, step) == FullVerdict(old(Now()), attempt, snapLossy)
      ensures step.Stayed? ==> Now() == old(Now())
      ensures !step.Stayed? ==> FullTaken(select, old(Now()), attempt.snap, step.lossy, now, Now())
    {
      hide IsFullIngest, ChatStore.Valid, ChatStore.PeopleNamed, ChatStore.View, ChatStore.IndexLive, OnlyServedOpen, Worth,
           HasNamed, Usable, IsIngestOf, Listed, FullTaken;
      if attempt.FullThrew? {
        return true, Stayed;
      }
      var next := EngineFull(attempt.snap);
      var lossy := snapLossy || attempt.snap.lossy;
      if lossy && Matched() {
        Discard(next.store);
        return false, Stayed;
      }
      ServeBuild(next, lossy, now, attempt.snap);
      return false, Rebuilt(attempt.snap, lossy);
    }

    /** The copy-reuse call: defer to a fresh read when a cached file vanished. The JS engine looks at lossiness first. */
    method EngineReuse(snap: Snapshot, compacted: bool, seen: Glance) returns (answer: Answer)
      requires Sound() && HasState() && ReadOnce(snap)
      modifies this`cur, this`stores, this`repr, this`applied, this`faithful, this`named, this`incrementalsSinceFull, repr
      ensures Sound() && fresh(repr - old(repr)) && !answer.Swapped? && answer == ReuseAnswer(native, old(Now()), snap, compacted, seen)
      ensures incrementalsSinceFull <= old(incrementalsSinceFull) + 1
      ensures if answer == InPlace then DeltaTaken(select, native, old(Now()), snap, Now()) else Now() == old(Now())
    {
      hide IsFullIngest, OnlyServedOpen, Worth, IsNext, SameStores, StepsTo;
      if !native && snap.lossy {
        return KeepCurrent;
      }
      if native && seen.unmoved {
        return KeepCurrent;
      }
      if native && (cur.value.built.None? || !seen.usable) {
        return NeedRebuild;
      }
      if compacted {
        return Defer;
      }
      answer := EngineRefresh(snap, seen);
    }

    /** The copy-reuse fast path: true when it handled this refresh, by applying the mirrored source or by keeping the store. */
    method TryCopyReuse(t: Tick) returns (handled: bool, step: Step)
      requires Sound() && WellRead(t) && incrementalsSinceFull <= maxIncrementals
      modifies this`cur, this`stores, this`repr, this`applied, this`faithful, this`named, this`incrementalsSinceFull,
               this`lastProbe, this`pendingFull, repr
      ensures Sound() && fresh(repr - old(repr)) && incrementalsSinceFull <= maxIncrementals
      ensures Fast(handled, step, pendingFull) ==
        var fast := ReuseVerdict(Config(), old(Now()), old(snapshotDir).Some?, t); fast.(latch := fast.latch || old(pendingFull))
      ensures !step.Rebuilt? && (!handled ==> step == Stayed && Now() == old(Now()))
      ensures lastProbe == if step.Stepped? then t.probe else old(lastProbe)
      ensures Took(select, native, t, step, old(Now()), Now())
    {
      hide IsFullIngest, OnlyServedOpen, Worth, IsNext, DeltaTaken, MirrorVerdict;
      if !copyReuse || isStatic || !HasState() || snapshotDir.None? {
        return false, Stayed;
      }
      if incrementalsSinceFull >= maxIncrementals || t.early - lastFullAt > fullIntervalMs {
        return false, Stayed;
      }
      if !reuseOffered || !t.reuseLive {
        return false, Stayed;
      }
      handled, step := ReuseMirror(t);
    }

    /** Mirror the live files into the kept directory and let the engine reuse what it read before; anything thrown, and a rebuild
        asked for, is latched as a full. */
    method ReuseMirror(t: Tick) returns (handled: bool, step: Step)
      requires Sound() && WellRead(t) && HasState() && incrementalsSinceFull < maxIncrementals
      modifies this`cur, this`stores, this`repr, this`applied, this`faithful, this`named, this`incrementalsSinceFull,
               this`lastProbe, this`pendingFull, repr
      ensures Sound() && fresh(repr - old(repr)) && incrementalsSinceFull <= maxIncrementals
      ensures Fast(handled, step, pendingFull) == var fast := MirrorVerdict(Config(), old(Now()),
                                                                            t); fast.(latch := fast.latch || old(pendingFull))
      ensures !step.Rebuilt? && (!handled ==> step == Stayed && Now() == old(Now()))
      ensures lastProbe == if step.Stepped? then t.probe else old(lastProbe)
      ensures Took(select, native, t, step, old(Now()), Now())
    {
      hide IsFullIngest, OnlyServedOpen, Worth, IsNext, DeltaTaken, ReuseAnswer, Took;
      ghost var a := Now();
      TookNothing(select, native, t, Now());
      if t.mirror == MirrorThrew {
        pendingFull := true;
        return false, Stayed;
      }
      if t.mirror == MirrorLossy {
        return true, Stayed;
      }
      if t.reuse.ReuseThrew? {
        pendingFull := true;
        return false, Stayed;
      }
      assert t.reuse.snap in Reads(t);
      var answer := EngineReuse(t.reuse.snap, t.reuse.compacted, t.mirrored);
      if answer == Defer {
        return false, Stayed;
      }
      if answer == KeepCurrent {
        return true, Stayed;
      }
      if answer == NeedRebuild {
        pendingFull := true;
        return false, Stayed;
      }
      TookDelta(select, native, t, t.reuse.snap, a, Now());
      lastProbe := t.probe;
      return true, Stepped(t.reuse.snap);
    }

    /** The fresh incremental read: a delta, or a rebuild when the engine asks for one or throws. A rebuild that throws after
        the engine asked for it is attempted a second time. */
    method Reparse(t: Tick, snapLossy: bool) returns (threw: bool, step: Step)
      requires Sound() && WellRead(t) && HasState()
      modifies this`cur, this`stores, this`repr, this`applied, this`faithful, this`complete, this`named,
               this`incrementalsSinceFull,
               this`lastFullAt, repr
      ensures Sound() && fresh(repr - old(repr))
      ensures Verdict(threw, step) == ReparseVerdict(Config(), old(Now()), t, snapLossy)
      ensures step.Stepped? <==> !t.refreshThrows && Applies(native, old(Now()), t.delta, t.copied)
      ensures threw || step.Rebuilt? ==> t.refreshThrows || Demands(native, old(Now()), t.delta, t.copied)
      ensures (t.refreshThrows || Demands(native, old(Now()), t.delta, t.copied)) && t.full.Loaded? ==>
        !threw && step == if (snapLossy || t.full.snap.lossy) && old(Matched()) then Stayed
                          else Rebuilt(t.full.snap, snapLossy || t.full.snap.lossy)
      ensures Took(select, native, t, step, old(Now()), Now())
    {
      hide IsFullIngest, OnlyServedOpen, Worth, IsNext, SameStores, StepsTo, Moved;
      Answers(native, Now(), t.delta, t.copied);
      assert t.delta in Reads(t);
      var attempt := t.full;
      if !t.refreshThrows {
        var answer := EngineRefresh(t.delta, t.copied);
        if answer == InPlace {
          return false, Stepped(t.delta);
        }
        if answer == KeepCurrent {
          return false, Stayed;
        }
        if t.full.FullThrew? {
          attempt := t.again;
        }
      }
      threw, step := DoFull(attempt, snapLossy, t.now);
    }

    /** The fresh read: a static directory as it is, or a new copy of the live one. */
    method ReadFresh(forceFull: bool, t: Tick) returns (threw: bool, step: Step)
      requires Valid() && WellRead(t)
      modifies this, repr
      ensures Valid() && fresh(repr - old(repr))
      ensures Verdict(threw, step) == ReadVerdict(Config(), old(Now()), old(pendingFull), forceFull, t)
      ensures Took(select, native, t, step, old(Now()), Now())
      ensures lastProbe == if CaughtUp(step) && !isStatic then t.probe else old(lastProbe)
      ensures pendingFull == (old(pendingFull) && !Readable(Config(), t))
    {
      hide IsFullIngest, OnlyServedOpen, Worth, Took, ApplyVerdict, CaughtUp, WellRead, Served;
      if isStatic {
        threw, step := ApplyRead(forceFull, t, false);
      } else {
        threw, step := ReadLive(forceFull, t);
      }
    }

    /** Copy the live files and work on the copy; the previous copy goes, whether or not the engine throws. */
    method ReadLive(forceFull: bool, t: Tick) returns (threw: bool, step: Step)
      requires Valid() && WellRead(t) && !isStatic
      modifies this, repr
      ensures Valid() && fresh(repr - old(repr))
      ensures Verdict(threw, step) == ReadVerdict(Config(), old(Now()), old(pendingFull), forceFull, t)
      ensures Took(select, native, t, step, old(Now()), Now())
      ensures lastProbe == if CaughtUp(step) then t.probe else old(lastProbe)
      ensures pendingFull == (old(pendingFull) && !Readable(Config(), t))
    {
      hide IsFullIngest, OnlyServedOpen, Worth, Took, ApplyVerdict, Matched, CaughtUp, WellRead;
      TookNothing(select, native, t, Now());
      if !t.live {
        return true, Stayed;
      }
      var dest := TakeSnapshot(t.copy);
      if dest.None? {
        return true, Stayed;
      }
      threw, step := WorkOn(dest.value, forceFull, t);
    }

    /** With both copies on disk: work on the new one, then let the previous one go. */
    method WorkOn(dest: nat, forceFull: bool, t: Tick) returns (threw: bool, step: Step)
      requires Sound() && WellRead(t) && !isStatic && t.copy.Copied? && incrementalsSinceFull <= maxIncrementals
      requires dirs == (if snapshotDir.Some? then {snapshotDir.value} else {}) + {dest} && dest < nextDir
      modifies this, repr
      ensures Valid() && fresh(repr - old(repr)) && !pendingFull
      ensures Verdict(threw, step) == ApplyVerdict(Config(), old(Now()), old(pendingFull), forceFull, t, t.copy.lossy)
      ensures Took(select, native, t, step, old(Now()), Now())
      ensures lastProbe == if CaughtUp(step) then t.probe else old(lastProbe)
    {
      hide IsFullIngest, OnlyServedOpen, Worth, Took, ApplyVerdict, Matched, CaughtUp, WellRead;
      threw, step := ApplyRead(forceFull, t, t.copy.lossy);
      Reconcile(dest, CaughtUp(step), t.probe);
    }

    /** After any read, throwing or not: keep the new copy, drop the previous one, and note the source as seen only if applied. Of the
        two directories that exist meanwhile only `snapshotDir` is left, so no copy is ever leaked or lost. */
    method Reconcile(dest: nat, caughtUp: bool, probe: Option<nat>)
      requires !isStatic && incrementalsSinceFull <= maxIncrementals && dest < nextDir
      requires dest in dirs && forall d :: d in dirs ==> Some(d) == snapshotDir || d == dest
      modifies this`snapshotDir, this`lastProbe, this`dirs
      ensures Tidy() && dirs == {dest}
      ensures lastProbe == if caughtUp then probe else old(lastProbe)
    {
      var prevSnap := snapshotDir;
      snapshotDir := Some(dest);
      if caughtUp {
        lastProbe := probe;
      }
      if prevSnap.Some? && prevSnap != Some(dest) {
        dirs := dirs - {prevSnap.value};
      }
    }

    /** Copy the live files into a new temporary directory, which a failed listing leaves no trace of. */
    method TakeSnapshot(copy: Copied) returns (dest: Option<nat>)
      requires forall d :: d in dirs ==> d < nextDir
      modifies this`dirs, this`nextDir
      ensures dest.Some? <==> copy.Copied?
      ensures dirs == old(dirs) + (if dest.Some? then {dest.value} else {})
      ensures dest.Some? ==> dest.value !in old(dirs)
      ensures forall d :: d in dirs ==> d < nextDir
    {
      var made := nextDir;
      nextDir, dirs := nextDir + 1, dirs + {made};
      if copy.CopyThrew? {
        dirs := dirs - {made};
        return None;
      }
      dest := Some(made);
    }

    /** What is done with a directory that could be read. */
    method ApplyRead(forceFull: bool, t: Tick, snapLossy: bool) returns (threw: bool, step: Step)
      requires Sound() && WellRead(t) && incrementalsSinceFull <= maxIncrementals
      modifies this`cur, this`stores, this`repr, this`applied, this`faithful, this`complete, this`named,
               this`incrementalsSinceFull, this`lastFullAt,
               this`pendingFull, repr
      ensures Sound() && fresh(repr - old(repr)) && incrementalsSinceFull <= maxIncrementals && !pendingFull
      ensures Verdict(threw, step) == ApplyVerdict(Config(), old(Now()), old(pendingFull), forceFull, t, snapLossy)
      ensures Took(select, native, t, step, old(Now()), Now())
    {
      hide IsFullIngest, OnlyServedOpen, Worth, IsNext, SameStores, StepsTo, DeltaContents, NextBuilt, ReparseVerdict;
      var wantFull := forceFull || pendingFull || FullDue(t.now);
      pendingFull := false;
      if wantFull {
        threw, step := DoFull(t.full, snapLossy, t.now);
      } else if snapLossy {
        threw, step := false, Stayed;
      } else {
        threw, step := Reparse(t, snapLossy);
      }
    }

    /** One refresh. Whatever happens, exactly the served store stays open, the old snapshot directory is gone, and the served
        store is untouched, a full build, or one delta further; `lastProbe` moves only when a complete source was applied. */
    method Refresh(forceFull: bool, t: Tick) returns (threw: bool, step: Step)
      requires Valid() && WellRead(t)
      modifies this, repr
      ensures Valid() && fresh(repr - old(repr))
      ensures Verdict(threw, step) == RefreshVerdict(Config(), old(Now()), old(pendingFull), old(snapshotDir).Some?, forceFull, t)
      ensures Took(select, native, t, step, old(Now()), Now())
      ensures lastProbe == if !isStatic && (step.Stepped? || (step.Rebuilt? && !step.lossy)) then t.probe else old(lastProbe)
      ensures pendingFull == LatchAfter(Config(), old(Now()), old(pendingFull), old(snapshotDir).Some?, forceFull, t)
      ensures Decided(Config(), old(Now()), old(pendingFull), old(snapshotDir).Some?, forceFull, t, threw, step, pendingFull)
    {
      hide IsFullIngest, OnlyServedOpen, Worth, IsNext, Took, ReuseVerdict, ReadVerdict, WellRead, Decided;
      RefreshTable(Config(), Now(), pendingFull, snapshotDir.Some?, forceFull, t);
      FastHandles(Config(), Now(), snapshotDir.Some?, t);
      if !forceFull {
        var handled;
        handled, step := TryCopyReuse(t);
        if handled {
          return false, step;
        }
      }
      threw, step := ReadFresh(forceFull, t);
    }
  }

  /** The delta on the served store itself. */
  method ApplyInPlace(select: Snapshot -> Option<Mapping>, store: ChatStore, b: Built, snap: Snapshot, ghost prior: Snapshot,
                      ghost faithful: bool)
    returns (outcome: Outcome, next: Built)
    requires store.Valid() && store.PeopleNamed() && Listed(b) && ReadOnce(snap)
    requires faithful ==> IsFullIngest(select, false, prior, b, store.handles.handleByFull, store.IndexLive(), store.View())
    modifies store, store.handles
    ensures store.Valid() && store.PeopleNamed() && store.isOpen == old(store.isOpen)
    ensures store.IndexLive() == old(store.IndexLive()) && Listed(next) && next == NextBuilt(false, b, snap)
    ensures outcome == if snap.lossy then Skipped else if !SameTargets(b.mapping, b.state, snap) then NeedFull else Applied
    ensures outcome != Applied ==> store.View() == old(store.View()) && store.handles.State() == old(store.handles.State())
    ensures outcome == Applied ==> DeltaContents(false, b, snap, old(store.View()), store.View())
    ensures outcome == Applied ==> NamesOnly(store.handles.sha, old(store.handles.State()), store.handles.State(), IdsOf(store.View()))
    ensures outcome == Applied && faithful && Steady(select, false, b.mapping, b.state.selfMri, prior, snap) ==>
      IsFullIngest(select, false, snap, next, store.handles.handleByFull, store.IndexLive(), store.View())
  {
    hide IsBuild, IsIncrement, IsIndex, Steady, SameTargets, MessageRecords, NamesOnly, Listed;
    ghost var c0, book0 := store.View(), store.handles.handleByFull;
    NamesNobody(store.handles.sha, store.handles.State(), IdsOf(store.View()));
    MessageFold.ByKeyFacts(store.messages);
    if faithful {
      BuiltIndex(select, false, prior, b, book0, store.IndexLive(), c0);
    }
    ListedOnce(b);
    ListedNext(b, snap);
    outcome := store.ApplyIncremental(b.mapping, b.state, snap);
    MessageFold.ByKeyFacts(store.messages);
    next := b.(state := b.state.(maxSeq := snap.maxSeq));
    if outcome == Applied && faithful && Steady(select, false, b.mapping, b.state.selfMri, prior, snap) {
      SteadyStep(select, false, b, prior, snap, book0, c0, store.handles.handleByFull, store.View(), store.IndexLive());
      SteadyMapping(select, false, b.mapping, b.state.selfMri, prior, snap);
    }
  }

  /** The delta on a copy of the served file, with everything about the source recomputed for the next one. */
  method ApplyToCopy(select: Snapshot -> Option<Mapping>, served: ChatStore, b: Built, snap: Snapshot, ghost prior: Snapshot,
                     ghost faithful: bool)
    returns (outcome: Outcome, store: ChatStore, next: Built)
    requires served.Valid() && served.PeopleNamed() && Listed(b) && ReadOnce(snap)
    requires faithful ==> IsFullIngest(select, true, prior, b, served.handles.handleByFull, served.IndexLive(), served.View())
    ensures fresh(store) && fresh(store.handles) && store.isOpen
    ensures store.Valid() && store.PeopleNamed() && Listed(next) && next == NextBuilt(true, b, snap)
    ensures outcome == if snap.lossy then Skipped else if !SameTargets(b.mapping, b.state, snap) then NeedFull else Applied
    ensures outcome == Applied ==> DeltaContents(true, b, snap, served.View(), store.View())
    ensures store.handles.sha == served.handles.sha
    ensures outcome == Applied ==> NamesOnly(store.handles.sha, served.handles.State(), store.handles.State(), IdsOf(store.View()))
    ensures outcome == Applied && faithful && Steady(select, true, b.mapping, b.state.selfMri, prior, snap) ==>
      IsFullIngest(select, true, snap, next, store.handles.handleByFull, store.IndexLive(), store.View())
  {
    hide IsBuild, IsIncrement, IsIndex, Steady, SameTargets, MessageRecords, SigsOf, SkippedAreCurrent, SeedBook, NamesOnly,
         Listed;
    ghost var c0, book0 := served.View(), served.handles.handleByFull;
    store := new ChatStore.Copy(served);
    ghost var seeded := store.handles.State();
    var self := b.mapping.vote(MessageRecords(b.mapping, snap));
    next := Built(b.mapping, StateOf(b.mapping, self, snap), SigsOf(b.mapping, snap));
    ListedOnce(b);
    ListedIs(next, snap);
    if faithful && Steady(select, true, b.mapping, b.state.selfMri, prior, snap) && snap.maxSeq != b.state.maxSeq {
      SkipsAreCurrent(select, b, b.state.selfMri, prior, snap, book0, served.IndexLive(), c0);
    }
    var skipped;
    MessageFold.ByKeyFacts(store.messages);
    if faithful {
      BuiltIndex(select, true, prior, b, book0, served.IndexLive(), c0);
    }
    outcome, skipped := store.RefreshStore(b.mapping, b.state, b.sigs, snap);
    MessageFold.ByKeyFacts(store.messages);
    if outcome == Applied {
      NamedSinceSeed(served.handles.State(), seeded, store.handles.State(), store.handles.sha, b.state.maxSeq == snap.maxSeq,
                     IdsOf(store.View()));
    }
    if outcome == Applied && faithful && Steady(select, true, b.mapping, b.state.selfMri, prior, snap) {
      SteadyStep(select, true, b, prior, snap, book0, c0, store.handles.handleByFull, store.View(), store.IndexLive());
      SteadyMapping(select, true, b.mapping, b.state.selfMri, prior, snap);
    }
  }

  /** Seeding names nobody; a delta names its own conversations and people. */
  lemma NamedSinceSeed(served: Book, seeded: Book, now: Book, sha: Hash, idle: bool, ids: Ids)
    requires NamesOnly(sha, served, seeded, Ids({}, {}))
    requires if idle then now == seeded else NamesOnly(sha, seeded, now, ids)
    ensures NamesOnly(sha, served, now, ids)
  {
    if idle {
      NamesNobody(sha, seeded, ids);
    }
    NamesTwice(sha, served, seeded, now, Ids({}, {}), ids);
    assert BothIds(Ids({}, {}), ids) == ids;
  }

  /** An indexed full ingest has the index of its messages. */
  lemma BuiltIndex(select: Snapshot -> Option<Mapping>, native: bool, snap: Snapshot, b: Built, book: map<string, string>,
                   indexed: bool, c: Contents)
    requires IsFullIngest(select, native, snap, b, book, indexed, c)
    ensures indexed ==> IsIndex(c.fts, c.messages.Values)
  {
  }

  lemma BuiltPeopleNamed(mapping: Mapping, self: Option<string>, snap: Snapshot, book: map<string, string>, indexed: bool,
                         c: Contents)
    requires IsBuild(mapping, self, snap, book, indexed, c)
    ensures forall mri :: mri in c.people ==> mri in book && c.people[mri].handle == book[mri]
  {
    PeopleAreNamed(c.messages.Values, book, c.people);
  }
}
