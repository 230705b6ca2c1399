/** The worker pool: one job per worker at a time, answers matched by the worker that replied. */
module Pools {
  import opened Base

  type Worker = nat
  type Job = nat
  datatype Settlement = Resolved | Rejected

  lemma {:induction false} RemoveFacts<T>(s: seq<T>, x: T)
    requires NoDup(s)
    ensures NoDup(Remove(s, x)) && Elems(Remove(s, x)) == Elems(s) - {x}
  {
    if s != [] {
      var rest := s[1..];
      assert s == [s[0]] + rest && s[0] !in rest;
      RemoveFacts(rest, x);
      if s[0] == x {
        assert Elems(s) == {x} + Elems(rest);
      } else {
        var r := Remove(rest, x);
        assert s[0] !in Elems(r) && Elems([s[0]] + r) == {s[0]} + Elems(r);
      }
    }
  }

  /** `indexOf` and `splice`: drop the first occurrence. */
  function Remove<T(==)>(s: seq<T>, x: T): seq<T> {
    if s == [] then [] else if s[0] == x then s[1..] else [s[0]] + Remove(s[1..], x)
  }

  lemma HeadTail<T>(s: seq<T>)
    requires s != []
    ensures Elems(s) == {s[0]} + Elems(s[1..]) && (NoDup(s) ==> NoDup(s[1..]) && s[0] !in Elems(s[1..]))
  {
    assert s == [s[0]] + s[1..];
  }

  class Pool {
    /** Whether a job's message can be posted; `postMessage` throws on the others. */
    const postable: Job -> bool

    var workers: seq<Worker>
    var idle: seq<Worker>
    var queue: seq<Job>
    var busy: map<Worker, Job>

    /** How each settled promise was settled. */
    var settled: map<Job, Settlement>

    /** Every job ever submitted, those submitted when no worker was left, and every worker that ever failed. */
    ghost var submitted: set<Job>
    ghost var late: set<Job>
    ghost var failed: set<Worker>

    /** Workers are idle or busy, never both, and never one that failed. */
    ghost predicate WorkersSplit()
      reads this`workers, this`idle, this`busy, this`failed
    {
      && NoDup(workers) && NoDup(idle)
      && Elems(workers) == Elems(idle) + busy.Keys && Elems(idle) !! busy.Keys
      && Elems(workers) !! failed
    }

    /** A job is queued, in flight on one worker, or settled. */
    ghost predicate JobsSplit()
      reads this`queue, this`busy, this`settled, this`submitted
    {
      && NoDup(queue)
      && (forall v, w :: v in busy && w in busy && busy[v] == busy[w] ==> v == w)
      && submitted == Elems(queue) + busy.Values + settled.Keys
      && Elems(queue) !! busy.Values && Elems(queue) !! settled.Keys && busy.Values !! settled.Keys
    }

    /** With no worker left, only jobs that came too late are waiting. */
    ghost predicate LateOnly()
      reads this`workers, this`queue, this`late
    {
      workers == [] ==> Elems(queue) <= late
    }

    ghost predicate Steady()
      reads this
    {
      WorkersSplit() && JobsSplit()
    }

    /** Between events no idle worker waits beside a queued job. */
    ghost predicate Valid()
      reads this
    {
      Steady() && LateOnly() && Exhausted()
    }

    predicate Exhausted()
      reads this`idle, this`queue
    {
      idle == [] || queue == []
    }

    constructor (size: nat, postable: Job -> bool)
      ensures Valid() && |workers| == size && settled == map[] && submitted == {} && failed == {} && this.postable == postable
    {
      this.postable := postable;
      workers, idle := seq(size, i => i), seq(size, i => i);
      queue, busy, settled := [], map[], map[];
      submitted, late, failed := {}, {}, {};
    }

    /** A promise is settled once. */
    method Settle(j: Job, how: Settlement)
      requires j !in settled
      modifies this`settled
      ensures settled == old(settled)[j := how]
    {
      settled := settled[j := how];
    }

    /** Hand the oldest queued job to the longest idle worker; a message that cannot be posted rejects its job and frees the worker. */
    method Dispatch()
      requires Steady() && idle != [] && queue != []
      modifies this`idle, this`queue, this`busy, this`settled
      ensures Steady() && queue == old(queue)[1..] && old(queue[0]) !in old(settled)
      ensures var w, j := old(idle[0]), old(queue[0]);
        if postable(j) then busy == old(busy)[w := j] && idle == old(idle)[1..] && settled == old(settled)
        else busy == old(busy) && idle == old(idle)[1..] + [w] && settled == old(settled)[j := Rejected]
    {
      var w, j := idle[0], queue[0];
      HeadTail(idle);
      HeadTail(queue);
      idle, queue := idle[1..], queue[1..];
      if postable(j) {
        busy := busy[w := j];
        AddedValue(old(busy), w, j);
      } else {
        ElemsAppend(idle, [w]);
        idle := idle + [w];
        Settle(j, Rejected);
      }
    }

    /** Dispatch until workers or jobs run out. */
    method Pump()
      requires Steady()
      modifies this`idle, this`queue, this`busy, this`settled
      ensures Steady() && Exhausted() && Only(old(queue), old(settled)) && Elems(queue) <= Elems(old(queue))
    {
      hide Steady, NoDup;
      while idle != [] && queue != []
        invariant Steady() && Only(old(queue), old(settled))
        invariant Elems(queue) <= Elems(old(queue))
        decreases |queue|
      {
        ghost var before := queue;
        HeadTail(queue);
        Dispatch();
        assert before[1..] == old(queue)[|old(queue)| - |before| + 1..];
      }
    }

    /** What pumping may do: take jobs off the front of the queue and reject some it cannot post; nothing settled changes. */
    ghost predicate Only(queue0: seq<Job>, settled0: map<Job, Settlement>)
      reads this`queue, this`settled
    {
      && |queue| <= |queue0| && queue == queue0[|queue0| - |queue|..]
      && (forall j :: j in settled0 ==> j in settled && settled[j] == settled0[j])
      && (forall j :: j in settled && j !in settled0 ==> settled[j] == Rejected && !postable(j))
    }

    /** Submit a job. */
    method Run(j: Job)
      requires Valid() && j !in submitted
      modifies this`idle, this`queue, this`busy, this`settled, this`submitted, this`late
      ensures Valid() && submitted == old(submitted) + {j} && late == old(late) + (if workers == [] then {j} else {})
      ensures Only(old(queue) + [j], old(settled))
    {
      hide Steady;
      Enqueue(j);
      Pump();
    }

    method Enqueue(j: Job)
      requires Steady() && LateOnly() && j !in submitted
      modifies this`queue, this`submitted, this`late
      ensures Steady() && LateOnly() && queue == old(queue) + [j]
      ensures submitted == old(submitted) + {j} && late == old(late) + (if workers == [] then {j} else {})
    {
      ElemsAppend(queue, [j]);
      assert j !in Elems(queue) && j !in busy.Values && j !in settled;
      queue := queue + [j];
      submitted := submitted + {j};
      if workers == [] {
        late := late + {j};
      }
    }

    /** A worker answered: its job resolves and it is free again. An answer with no job in flight changes nothing. */
    method OnMessage(w: Worker)
      requires Valid()
      modifies this`idle, this`queue, this`busy, this`settled
      ensures Valid()
      ensures w !in old(busy) ==> idle == old(idle) && queue == old(queue) && busy == old(busy) && settled == old(settled)
      ensures w in old(busy) ==> Only(old(queue), old(settled[busy[w] := Resolved]))
    {
      if w !in busy {
        return;
      }
      hide Steady;
      Free(w);
      Pump();
    }

    /** Resolve the job in flight on `w` and put the worker back at the end of the idle list. */
    method Free(w: Worker)
      requires Steady() && w in busy
      modifies this`idle, this`busy, this`settled
      ensures Steady() && settled == old(settled[busy[w] := Resolved]) && busy == old(busy) - {w} && idle == old(idle) + [w]
    {
      var j := busy[w];
      RemovedValue(busy, w);
      busy := busy - {w};
      ElemsAppend(idle, [w]);
      idle := idle + [w];
      Settle(j, Resolved);
    }

    /** A worker failed, or failed again: it is gone for good, its job is rejected, and with the last worker every queued job is. */
    method OnError(w: Worker)
      requires Valid()
      modifies this
      ensures Valid() && w !in workers && failed == old(failed) + {w} && workers == Remove(old(workers), w)
      ensures submitted == old(submitted) && late == old(late)
      ensures forall j :: j in old(settled) ==> j in settled && settled[j] == old(settled[j])
      ensures w in old(busy) ==> old(busy[w]) in settled && settled[old(busy[w])] == Rejected
      ensures workers == [] ==> settled.Keys == submitted
    {
      RemoveWorker(w);
      label Removed:
      if workers == [] {
        RejectQueue();
      }
      Pump();
    }

    method RemoveWorker(w: Worker)
      requires Steady()
      modifies this`workers, this`idle, this`busy, this`settled, this`failed
      ensures Steady() && w !in workers && failed == old(failed) + {w} && workers == Remove(old(workers), w)
      ensures settled == if w in old(busy) then old(settled[busy[w] := Rejected]) else old(settled)
    {
      RemovedValue(busy, w);
      RemoveFacts(workers, w);
      RemoveFacts(idle, w);
      var inFlight := if w in busy then Some(busy[w]) else None;
      busy := busy - {w};
      workers, idle := Remove(workers, w), Remove(idle, w);
      failed := failed + {w};
      if inFlight.Some? {
        Settle(inFlight.value, Rejected);
      }
    }

    /** `queue.splice(0)`, each job rejected. */
    method RejectQueue()
      requires Steady()
      modifies this`queue, this`settled
      ensures Steady() && queue == []
      ensures forall j :: j in old(settled) ==> j in settled && settled[j] == old(settled[j])
    {
      while queue != []
        invariant Steady()
        invariant forall j :: j in old(settled) ==> j in settled && settled[j] == old(settled[j])
        decreases |queue|
      {
        var j := queue[0];
        HeadTail(queue);
        queue := queue[1..];
        Settle(j, Rejected);
      }
    }
  }

  lemma AddedValue(m: map<Worker, Job>, w: Worker, j: Job)
    requires w !in m
    ensures m[w := j].Values == m.Values + {j}
  {
    var r := m[w := j];
    assert r[w] == j;
    forall v | v in m.Values
      ensures v in r.Values
    {
      var k :| k in m && m[k] == v;
      assert r[k] == v;
    }
  }

  lemma RemovedValue(m: map<Worker, Job>, w: Worker)
    requires forall v, u :: v in m && u in m && m[v] == m[u] ==> v == u
    ensures (m - {w}).Values == if w in m then m.Values - {m[w]} else m.Values
  {
    var r := m - {w};
    forall v | v in m.Values && (w in m ==> v != m[w])
      ensures v in r.Values
    {
      var k :| k in m && m[k] == v;
      assert r[k] == v;
    }
  }
}
