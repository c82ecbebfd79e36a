/**
 Workers, enqueuers, cancellers and restarts interleaving over one job table.

 A state holds the table and, for every worker, where it stands in its loop. Every event is one
 committed transaction or one worker's death; a run is any sequence of events, of which those that
 are not possible when their turn comes do nothing.
 */
module WorkerProtocol {
  import opened Common
  import opened JobQueue

  /** Where a worker stands: between jobs, holding a selected id, running a claimed job, or gone. */
  datatype Position = Idle | Selected(id: JobId) | Holding(id: JobId) | Dead

  datatype Worker = Worker(at: Position, allowed: Option<set<JobType>>)

  datatype System = System(queue: Queue, workers: map<WorkerId, Worker>)

  datatype Event =
    | Enqueue(request: Request)
    | CancelByKey(key: string)
    | Start(worker: WorkerId, allowed: Option<set<JobType>>)
    | Select(worker: WorkerId, now: int, id: JobId)
    | Claim(worker: WorkerId)
    | ClaimThenDie(worker: WorkerId)
    | Progress(worker: WorkerId, updates: Payload)
    | Complete(worker: WorkerId, result: Option<string>)
    | Fail(worker: WorkerId)
    | Die(worker: WorkerId)
    | ResetStale

  predicate IsAt(s: System, w: WorkerId, p: Position) {
    w in s.workers && s.workers[w].at == p
  }

  predicate HoldsJob(s: System, w: WorkerId) {
    w in s.workers && s.workers[w].at.Holding?
  }

  predicate HasSelected(s: System, w: WorkerId) {
    w in s.workers && s.workers[w].at.Selected?
  }

  /**
   Stale jobs are reset at startup, before any worker of the new process exists. A worker that finds
   nothing to select, or whose selected row is no longer pending, is back where it was.
   */
  ghost predicate Possible(s: System, e: Event) {
    match e
    case Enqueue(_) => true
    case CancelByKey(_) => true
    case Start(w, _) => w in s.workers ==> s.workers[w].at == Dead
    case Select(w, now, id) => IsAt(s, w, Idle) && IsNextJob(s.queue.rows, s.workers[w].allowed, now, id)
    case Claim(w) => HasSelected(s, w)
    case ClaimThenDie(w) => HasSelected(s, w)
    case Progress(w, _) => HoldsJob(s, w)
    case Complete(w, _) => HoldsJob(s, w)
    case Fail(w) => HoldsJob(s, w)
    case Die(w) => w in s.workers
    case ResetStale => forall w :: w in s.workers ==> s.workers[w].at == Dead
  }

  ghost function Moved(s: System, w: WorkerId, p: Position): map<WorkerId, Worker>
    requires w in s.workers
  {
    s.workers[w := s.workers[w].(at := p)]
  }

  ghost function Next(s: System, e: Event): System
    requires Possible(s, e)
  {
    var rows := s.queue.rows;
    match e
    case Enqueue(request) => s.(queue := Enqueued(s.queue, request).0)
    case CancelByKey(key) => s.(queue := s.queue.(rows := WithoutPending(rows, key)))
    case Start(w, allowed) => s.(workers := s.workers[w := Worker(Idle, allowed)])
    case Select(w, _, id) => s.(workers := Moved(s, w, Selected(id)))
    case Claim(w) =>
      var id := s.workers[w].at.id;
      System(s.queue.(rows := Claimed(rows, id, w)), Moved(s, w, if IsPending(rows, id) then Holding(id) else Idle))
    case ClaimThenDie(w) =>
      System(s.queue.(rows := Claimed(rows, s.workers[w].at.id, w)), Moved(s, w, Dead))
    case Progress(w, updates) => s.(queue := s.queue.(rows := WithPayload(rows, s.workers[w].at.id, updates)))
    case Complete(w, result) =>
      System(s.queue.(rows := Finished(rows, s.workers[w].at.id, result)), Moved(s, w, Idle))
    case Fail(w) => System(s.queue.(rows := Broken(rows, s.workers[w].at.id)), Moved(s, w, Idle))
    case Die(w) => s.(workers := Moved(s, w, Dead))
    case ResetStale => s.(queue := s.queue.(rows := WithoutStale(rows)))
  }

  const FRESH: System := System(Queue(map[], 0), map[])

  ghost function Step(s: System, e: Event): System {
    if Possible(s, e) then Next(s, e) else s
  }

  /** The state a run leads to. */
  ghost function StateAfter(events: seq<Event>): System {
    if events == [] then FRESH else Step(StateAfter(events[..|events| - 1]), events[|events| - 1])
  }

  // ---- the invariant ----

  /** Never claimed while pending or canceled, claimed exactly once afterwards. */
  ghost predicate AttemptsMatchStatus(job: Job) {
    job.attempts == if job.status == Pending || job.status == Canceled then 0 else 1
  }

  /** A worker that holds a job holds a running job claimed by itself and of a type it may run. */
  ghost predicate HoldsItsOwn(s: System, w: WorkerId)
    requires w in s.workers && s.workers[w].at.Holding?
  {
    var id := s.workers[w].at.id;
    && id in s.queue.rows && s.queue.rows[id].status == Running
    && s.queue.rows[id].claimedBy == Some(w) && IsAllowed(s.workers[w].allowed, s.queue.rows[id].jobType)
  }

  ghost predicate SelectedExists(s: System, w: WorkerId)
    requires w in s.workers && s.workers[w].at.Selected?
  {
    var id := s.workers[w].at.id;
    id in s.queue.rows && IsAllowed(s.workers[w].allowed, s.queue.rows[id].jobType)
  }

  ghost predicate Consistent(s: System) {
    && (forall id :: id in s.queue.rows ==> id < s.queue.nextId && AttemptsMatchStatus(s.queue.rows[id]))
    && (forall w :: w in s.workers && s.workers[w].at.Holding? ==> HoldsItsOwn(s, w))
    && (forall w :: w in s.workers && s.workers[w].at.Selected? ==> SelectedExists(s, w))
  }

  /**
   What one event may do to one job: appear as pending, go from pending to running or canceled, from
   running to completed or failed, or change its payload while it runs. Final rows are frozen.
   */
  ghost predicate LegalChange(before: Rows, after: Rows, id: JobId) {
    if id !in before then id in after ==> after[id].status == Pending && after[id].attempts == 0
    else
      && id in after
      && after[id].jobType == before[id].jobType && after[id].dedupeKey == before[id].dedupeKey
      && after[id].scheduledAt == before[id].scheduledAt
      && match before[id].status
         case Pending =>
           after[id] == before[id] || after[id] == before[id].(status := Canceled)
           || exists w :: after[id] == before[id].(status := Running, claimedBy := Some(w), attempts := before[id].attempts + 1)
         case Running =>
           after[id].status in {Running, Completed, Failed} && after[id].attempts == before[id].attempts
           && after[id].claimedBy == before[id].claimedBy
         case _ => after[id] == before[id]
  }

  lemma EnqueueChanges(q: Queue, r: Request, id: JobId)
    requires forall k :: k in q.rows ==> k < q.nextId
    ensures LegalChange(q.rows, Enqueued(q, r).0.rows, id)
    ensures id in Enqueued(q, r).0.rows ==> id < Enqueued(q, r).0.nextId
    ensures id in q.rows && q.rows[id].status == Running ==> Enqueued(q, r).0.rows[id] == q.rows[id]
  {
  }

  lemma EventChangesLegally(s: System, e: Event, id: JobId)
    requires Consistent(s) && Possible(s, e)
    ensures LegalChange(s.queue.rows, Next(s, e).queue.rows, id)
  {
    match e
    case Enqueue(r) => EnqueueChanges(s.queue, r, id);
    case CancelByKey(_) =>
    case Start(_, _) =>
    case Select(_, _, _) =>
    case Claim(w) =>
    case ClaimThenDie(w) =>
    case Progress(w, _) => assert HoldsItsOwn(s, w);
    case Complete(w, _) => assert HoldsItsOwn(s, w);
    case Fail(w) => assert HoldsItsOwn(s, w);
    case Die(_) =>
    case ResetStale =>
  }

  lemma StepKeepsRows(s: System, e: Event)
    requires Consistent(s)
    ensures forall id :: id in Step(s, e).queue.rows ==>
      id < Step(s, e).queue.nextId && AttemptsMatchStatus(Step(s, e).queue.rows[id])
  {
    if Possible(s, e) {
      forall id | id in Next(s, e).queue.rows
        ensures id < Next(s, e).queue.nextId && AttemptsMatchStatus(Next(s, e).queue.rows[id])
      {
        EventChangesLegally(s, e, id);
      }
    }
  }

  /** A job held before an event is held after it, unless the event is its holder's own move. */
  lemma StepKeepsHolder(s: System, e: Event, w: WorkerId)
    requires Consistent(s) && w in Step(s, e).workers && Step(s, e).workers[w].at.Holding?
    ensures HoldsItsOwn(Step(s, e), w)
  {
    if Possible(s, e) && HoldsJob(s, w) {
      assert HoldsItsOwn(s, w);
      match e
      case Enqueue(r) => EnqueueChanges(s.queue, r, s.workers[w].at.id);
      case Complete(other, _) => assert HoldsItsOwn(s, other);
      case Fail(other) => assert HoldsItsOwn(s, other);
      case ResetStale =>
      case _ =>
    }
  }

  lemma StepKeepsSelected(s: System, e: Event, w: WorkerId)
    requires Consistent(s) && w in Step(s, e).workers && Step(s, e).workers[w].at.Selected?
    ensures SelectedExists(Step(s, e), w)
  {
    if Possible(s, e) && HasSelected(s, w) {
      assert SelectedExists(s, w);
      EventChangesLegally(s, e, s.workers[w].at.id);
    }
  }

  lemma StepKeepsConsistent(s: System, e: Event)
    requires Consistent(s)
    ensures Consistent(Step(s, e))
  {
    StepKeepsRows(s, e);
    forall w | w in Step(s, e).workers && Step(s, e).workers[w].at.Holding? ensures HoldsItsOwn(Step(s, e), w) {
      StepKeepsHolder(s, e, w);
    }
    forall w | w in Step(s, e).workers && Step(s, e).workers[w].at.Selected? ensures SelectedExists(Step(s, e), w) {
      StepKeepsSelected(s, e, w);
    }
  }

  /** In every reachable state attempts match the status and every holder holds its own running job. */
  lemma {:induction false} EveryRunIsConsistent(events: seq<Event>)
    ensures Consistent(StateAfter(events))
  {
    if events != [] {
      EveryRunIsConsistent(events[..|events| - 1]);
      StepKeepsConsistent(StateAfter(events[..|events| - 1]), events[|events| - 1]);
    }
  }

  /** No two workers ever hold the same job. */
  lemma JobsAreHeldExclusively(events: seq<Event>, w: WorkerId, w': WorkerId)
    requires HoldsJob(StateAfter(events), w) && HoldsJob(StateAfter(events), w')
    requires StateAfter(events).workers[w].at == StateAfter(events).workers[w'].at
    ensures w == w'
  {
    EveryRunIsConsistent(events);
    assert HoldsItsOwn(StateAfter(events), w);
    assert HoldsItsOwn(StateAfter(events), w');
  }

  // ---- how often a job is claimed ----

  /** Whether an event claims job `id`: its conditional update finds the row still pending. */
  ghost predicate Claims(s: System, e: Event, id: JobId) {
    && (e.Claim? || e.ClaimThenDie?) && HasSelected(s, e.worker)
    && s.workers[e.worker].at.id == id && IsPending(s.queue.rows, id)
  }

  ghost function ClaimCount(events: seq<Event>, id: JobId): nat {
    if events == [] then 0
    else
      ClaimCount(events[..|events| - 1], id)
      + if Claims(StateAfter(events[..|events| - 1]), events[|events| - 1], id) then 1 else 0
  }

  ghost function AttemptsOf(rows: Rows, id: JobId): nat {
    if id in rows then rows[id].attempts else 0
  }

  lemma StepCountsClaims(s: System, e: Event, id: JobId)
    requires Consistent(s)
    ensures AttemptsOf(Step(s, e).queue.rows, id) == AttemptsOf(s.queue.rows, id) + if Claims(s, e, id) then 1 else 0
  {
    if Possible(s, e) {
      EventChangesLegally(s, e, id);
    }
  }

  /**
   The attempts column counts the successful claims of a job, and there is at most one in any run:
   none while the job is pending or canceled, one once it runs, completes or fails.
   */
  lemma {:induction false} ClaimedAtMostOnce(events: seq<Event>, id: JobId)
    ensures ClaimCount(events, id) == AttemptsOf(StateAfter(events).queue.rows, id) <= 1
  {
    if events != [] {
      var front := events[..|events| - 1];
      ClaimedAtMostOnce(front, id);
      EveryRunIsConsistent(front);
      StepCountsClaims(StateAfter(front), events[|events| - 1], id);
    }
    EveryRunIsConsistent(events);
  }

  /** Completed, failed and canceled are for good, payload and all. */
  lemma {:induction false} FinalJobsAreFrozen(events: seq<Event>, n: nat, id: JobId)
    requires n <= |events| && id in StateAfter(events[..n]).queue.rows
    requires StateAfter(events[..n]).queue.rows[id].status.IsFinal()
    ensures id in StateAfter(events).queue.rows
    ensures StateAfter(events).queue.rows[id] == StateAfter(events[..n]).queue.rows[id]
  {
    if n == |events| {
      assert events[..n] == events;
    } else {
      var front := events[..|events| - 1];
      assert front[..n] == events[..n];
      FinalJobsAreFrozen(front, n, id);
      EveryRunIsConsistent(front);
      if Possible(StateAfter(front), events[|events| - 1]) {
        EventChangesLegally(StateAfter(front), events[|events| - 1], id);
      }
    }
  }

  /** No event makes a job vanish, a claimed job pending again, or another job of it: type, key and time stay. */
  lemma {:induction false} JobsNeverVanish(events: seq<Event>, n: nat, id: JobId)
    requires n <= |events| && id in StateAfter(events[..n]).queue.rows
    ensures id in StateAfter(events).queue.rows
    ensures StateAfter(events[..n]).queue.rows[id].status != Pending ==> StateAfter(events).queue.rows[id].status != Pending
    ensures var (then_, now) := (StateAfter(events[..n]).queue.rows[id], StateAfter(events).queue.rows[id]);
      now.jobType == then_.jobType && now.dedupeKey == then_.dedupeKey && now.scheduledAt == then_.scheduledAt
  {
    if n == |events| {
      assert events[..n] == events;
    } else {
      var front := events[..|events| - 1];
      assert front[..n] == events[..n];
      JobsNeverVanish(front, n, id);
      EveryRunIsConsistent(front);
      if Possible(StateAfter(front), events[|events| - 1]) {
        EventChangesLegally(StateAfter(front), events[|events| - 1], id);
      }
    }
  }

  /** A worker starts between jobs, and only when it is not alive: a live one goes on where it stands, with the types it may run. */
  lemma OnlyTheDeadStart(events: seq<Event>, w: WorkerId, allowed: Option<set<JobType>>)
    ensures var (before, after) := (StateAfter(events), StateAfter(events + [Start(w, allowed)]));
      && after.queue == before.queue
      && (w in before.workers && before.workers[w].at != Dead ==> after == before)
      && (w !in before.workers || before.workers[w].at == Dead ==> w in after.workers && after.workers[w] == Worker(Idle, allowed))
  {
    assert (events + [Start(w, allowed)])[..|events|] == events;
  }

  /** The reset at a startup, when no worker is alive, leaves no job running. */
  lemma ResetLeavesNothingRunning(events: seq<Event>, id: JobId)
    requires forall w :: w in StateAfter(events).workers ==> StateAfter(events).workers[w].at == Dead
    requires id in StateAfter(events + [ResetStale]).queue.rows
    ensures StateAfter(events + [ResetStale]).queue.rows[id].status != Running
  {
    assert (events + [ResetStale])[..|events|] == events;
  }

  // ---- deduplication ----

  ghost predicate AtMostOnePending(rows: Rows, key: string) {
    forall a, b :: a in rows && b in rows && PendingWithKey(rows[a], key) && PendingWithKey(rows[b], key) ==> a == b
  }

  ghost predicate AtMostOneActive(rows: Rows, key: string) {
    forall a, b :: a in rows && b in rows && ActiveWithKey(rows[a], key) && ActiveWithKey(rows[b], key) ==> a == b
  }

  /** Every request for `key` deduplicates, by replacing pending jobs or by yielding to active ones. */
  ghost predicate AlwaysDeduplicated(events: seq<Event>, key: string) {
    forall i :: 0 <= i < |events| ==> Deduplicated(events[i], key)
  }

  ghost predicate Deduplicated(e: Event, key: string) {
    e.Enqueue? && e.request.dedupeKey == Some(key) ==> e.request.replacePending || e.request.skipIfActive
  }

  /** Every request for `key` yields to active jobs. */
  ghost predicate AlwaysSkipped(events: seq<Event>, key: string) {
    forall i :: 0 <= i < |events| ==> SkipsActive(events[i], key)
  }

  ghost predicate SkipsActive(e: Event, key: string) {
    e.Enqueue? && e.request.dedupeKey == Some(key) ==> e.request.skipIfActive
  }

  lemma EnqueueKeepsOnePending(q: Queue, r: Request, key: string)
    requires AtMostOnePending(q.rows, key) && key != []
    requires Deduplicated(Enqueue(r), key)
    requires forall id :: id in q.rows ==> id < q.nextId
    ensures AtMostOnePending(Enqueued(q, r).0.rows, key)
  {
    var rows := AfterReplacing(q.rows, r);
    assert forall id :: id in rows && PendingWithKey(rows[id], key) ==> id in q.rows && PendingWithKey(q.rows[id], key);
    if r.dedupeKey == Some(key) && Enqueued(q, r).1.Some? {
      forall id | id in rows ensures !PendingWithKey(rows[id], key) {
        if !r.replacePending {
          assert !ActiveWithKey(rows[id], key);
        }
      }
    }
  }

  lemma EnqueueKeepsOneActive(q: Queue, r: Request, key: string)
    requires AtMostOneActive(q.rows, key) && key != []
    requires SkipsActive(Enqueue(r), key)
    requires forall id :: id in q.rows ==> id < q.nextId
    ensures AtMostOneActive(Enqueued(q, r).0.rows, key)
  {
    var rows := AfterReplacing(q.rows, r);
    assert forall id :: id in rows && ActiveWithKey(rows[id], key) ==> id in q.rows && ActiveWithKey(q.rows[id], key);
    if r.dedupeKey == Some(key) && Enqueued(q, r).1.Some? {
      assert forall id :: id in rows ==> !ActiveWithKey(rows[id], key);
    }
  }

  lemma StepKeepsOne(s: System, e: Event, key: string)
    requires Consistent(s) && key != []
    ensures AtMostOnePending(s.queue.rows, key) && Deduplicated(e, key) ==> AtMostOnePending(Step(s, e).queue.rows, key)
    ensures AtMostOneActive(s.queue.rows, key) && SkipsActive(e, key) ==> AtMostOneActive(Step(s, e).queue.rows, key)
  {
    var before, after := s.queue.rows, Step(s, e).queue.rows;
    if e.Enqueue? {
      if AtMostOnePending(before, key) && Deduplicated(e, key) {
        EnqueueKeepsOnePending(s.queue, e.request, key);
      }
      if AtMostOneActive(before, key) && SkipsActive(e, key) {
        EnqueueKeepsOneActive(s.queue, e.request, key);
      }
    } else if Possible(s, e) {
      forall id | id in after
        ensures id in before
        ensures PendingWithKey(after[id], key) ==> PendingWithKey(before[id], key)
        ensures ActiveWithKey(after[id], key) ==> ActiveWithKey(before[id], key)
      {
        EventChangesLegally(s, e, id);
      }
    }
  }

  /**
   Deduplication holds in every reachable state: one pending job per key whose requests always
   deduplicate, and one pending or running job per key whose requests always skip.
   */
  lemma {:induction false} KeysStayUnique(events: seq<Event>, key: string)
    requires key != []
    ensures AlwaysDeduplicated(events, key) ==> AtMostOnePending(StateAfter(events).queue.rows, key)
    ensures AlwaysSkipped(events, key) ==> AtMostOneActive(StateAfter(events).queue.rows, key)
  {
    if events != [] {
      var front := events[..|events| - 1];
      assert forall i :: 0 <= i < |front| ==> front[i] == events[i];
      KeysStayUnique(front, key);
      EveryRunIsConsistent(front);
      StepKeepsOne(StateAfter(front), events[|events| - 1], key);
    }
  }

  // ---- what a request leads to ----

  /** Event `n` of a run is a request, and it was accepted as job `id`. */
  ghost predicate AcceptedAs(events: seq<Event>, n: nat, r: Request, id: JobId) {
    && n < |events| && events[n] == Enqueue(r)
    && Enqueued(StateAfter(events[..n]).queue, r).1 == Some(id)
  }

  /** An accepted request is in the table for good: with its type, key and time, and with its payload while it is pending. */
  lemma AcceptedStays(events: seq<Event>, n: nat, r: Request, id: JobId)
    requires AcceptedAs(events, n, r, id)
    ensures id in StateAfter(events).queue.rows
    ensures var job := StateAfter(events).queue.rows[id];
      job.jobType == r.jobType && job.dedupeKey == r.dedupeKey && job.scheduledAt == r.runAt
  {
    var upTo := events[..n + 1];
    assert upTo[..n] == events[..n] && upTo[n] == Enqueue(r);
    AcceptedIsStored(StateAfter(events[..n]).queue, r);
    JobsNeverVanish(events, n + 1, id);
  }

  /**
   Deduplication over whole runs: while an accepted job of a key runs, every request of that key that
   yields to active jobs is refused and changes nothing; while it is pending, every such request that
   does not replace pending jobs.
   */
  lemma ActiveJobBlocksItsKey(events: seq<Event>, n: nat, first: Request, id: JobId, r: Request)
    requires AcceptedAs(events, n, first, id)
    requires first.dedupeKey.Some? && |first.dedupeKey.value| > 0
    requires r.dedupeKey == first.dedupeKey && r.skipIfActive
    ensures id in StateAfter(events).queue.rows
    ensures var status := StateAfter(events).queue.rows[id].status;
      status == Running || (status == Pending && !r.replacePending) ==>
        && Enqueued(StateAfter(events).queue, r) == (StateAfter(events).queue, None)
        && StateAfter(events + [Enqueue(r)]) == StateAfter(events)
  {
    AcceptedStays(events, n, first, id);
    RefusedIff(StateAfter(events).queue, r);
    assert (events + [Enqueue(r)])[..|events|] == events;
  }

  /** Right after an accepted replacing request exactly one pending job has its key, the new one; those before it are canceled. */
  lemma ReplacingLeavesOnePending(events: seq<Event>, r: Request)
    requires r.dedupeKey.Some? && |r.dedupeKey.value| > 0 && r.replacePending
    requires Enqueued(StateAfter(events).queue, r).1.Some?
    ensures var id := Enqueued(StateAfter(events).queue, r).1.value;
      var (before, after) := (StateAfter(events).queue.rows, StateAfter(events + [Enqueue(r)]).queue.rows);
      && (forall k :: k in after && after[k].dedupeKey == r.dedupeKey && after[k].status == Pending <==> k == id)
      && (forall k :: k in before && before[k].dedupeKey == r.dedupeKey && before[k].status == Pending ==>
            k in after && after[k].status == Canceled)
  {
    assert (events + [Enqueue(r)])[..|events|] == events;
    AcceptedIsStored(StateAfter(events).queue, r);
    EveryRunIsConsistent(events);
  }

  /** Two requests for one task in a row: the first is queued as job 0, the second is refused. */
  lemma TaskIsQueuedOnce()
    ensures var r := Request(TaskRun, map[], 5, Some("task-run-a"), false, true);
      && Enqueued(FRESH.queue, r).1 == Some(0)
      && Enqueued(StateAfter([Enqueue(r)]).queue, r).1 == None
      && StateAfter([Enqueue(r), Enqueue(r)]) == StateAfter([Enqueue(r)])
  {
    var r := Request(TaskRun, map[], 5, Some("task-run-a"), false, true);
    var once := [Enqueue(r)];
    assert once[..0] == [];
    RefusedIff(FRESH.queue, r);
    assert AcceptedAs(once, 0, r, 0);
    ActiveJobBlocksItsKey(once, 0, r, 0, r);
    AcceptedIsStored(FRESH.queue, r);
    assert once + once == [Enqueue(r), Enqueue(r)];
  }

  // ---- how a job ends ----

  /** The holder of a job reports that it is done. */
  ghost predicate Completes(s: System, e: Event, id: JobId) {
    e.Complete? && IsAt(s, e.worker, Holding(id))
  }

  /** The holder of a job reports that it failed, or a restart finds it running. */
  ghost predicate Fails(s: System, e: Event, id: JobId) {
    || (e.Fail? && IsAt(s, e.worker, Holding(id)))
    || (e.ResetStale? && Possible(s, e) && id in s.queue.rows && s.queue.rows[id].status == Running)
  }

  /** A pending job is canceled by its key or replaced by an accepted request. */
  ghost predicate Cancels(s: System, e: Event, id: JobId) {
    && id in s.queue.rows && s.queue.rows[id].status == Pending
    && (|| (e.CancelByKey? && s.queue.rows[id].dedupeKey == Some(e.key))
        || (e.Enqueue? && Enqueued(s.queue, e.request).1.Some? && Replaces(e.request, s.queue.rows[id])))
  }

  ghost predicate HasStatus(s: System, id: JobId, status: Status) {
    id in s.queue.rows && s.queue.rows[id].status == status
  }

  /** What brings a job into a final status. */
  ghost predicate Ends(s: System, e: Event, id: JobId, status: Status) {
    match status
    case Completed => Completes(s, e, id)
    case Failed => Fails(s, e, id)
    case Canceled => Cancels(s, e, id)
    case _ => false
  }

  lemma EnqueueEnds(s: System, r: Request, id: JobId, status: Status)
    requires Consistent(s) && status.IsFinal()
    ensures HasStatus(Step(s, Enqueue(r)), id, status) <==> HasStatus(s, id, status) || Ends(s, Enqueue(r), id, status)
  {
    RefusedIff(s.queue, r);
    if Enqueued(s.queue, r).1.Some? {
      AcceptedIsStored(s.queue, r);
    }
  }

  lemma StepEnds(s: System, e: Event, id: JobId, status: Status)
    requires Consistent(s) && status.IsFinal()
    ensures HasStatus(Step(s, e), id, status) <==> HasStatus(s, id, status) || Ends(s, e, id, status)
  {
    if e.Enqueue? {
      EnqueueEnds(s, e.request, id, status);
    } else if (e.Complete? || e.Fail?) && HoldsJob(s, e.worker) {
      assert HoldsItsOwn(s, e.worker);
    }
  }

  ghost predicate EndsAt(events: seq<Event>, i: nat, id: JobId, status: Status)
    requires i < |events|
  {
    Ends(StateAfter(events[..i]), events[i], id, status)
  }

  ghost predicate EndedBySome(events: seq<Event>, id: JobId, status: Status) {
    exists i :: 0 <= i < |events| && EndsAt(events, i, id, status)
  }

  lemma EndedByTheLast(front: seq<Event>, e: Event, id: JobId, status: Status)
    ensures EndedBySome(front + [e], id, status) <==> EndedBySome(front, id, status) || Ends(StateAfter(front), e, id, status)
  {
    var events := front + [e];
    assert events[..|front|] == front;
    forall i | 0 <= i < |front| ensures EndsAt(events, i, id, status) <==> EndsAt(front, i, id, status) {
      assert events[..i] == front[..i];
    }
    assert EndsAt(events, |front|, id, status) <==> Ends(StateAfter(front), e, id, status);
  }

  /** Over any run a job is completed, failed or canceled exactly when some event of the run has ended it so. */
  lemma {:induction false} EndedExactlyBy(events: seq<Event>, id: JobId, status: Status)
    requires status.IsFinal()
    ensures HasStatus(StateAfter(events), id, status) <==> EndedBySome(events, id, status)
  {
    if events != [] {
      var front, last := events[..|events| - 1], events[|events| - 1];
      EndedExactlyBy(front, id, status);
      EveryRunIsConsistent(front);
      StepEnds(StateAfter(front), last, id, status);
      EndedByTheLast(front, last, id, status);
      assert events == front + [last];
    }
  }

  // ---- one job from beginning to end ----

  const TASK: Request := Request(TaskRun, map["task" := "scan"], 5, None, false, false)

  /** The job before it is claimed, while it runs, and when it is done. */
  const QUEUED: Job := Job(TaskRun, Pending, map["task" := "scan"], None, 5, 0, None)
  const RUNNING: Job := Job(TaskRun, Running, map["task" := "scan"], None, 5, 1, Some("w"))
  const HALFWAY: Job := RUNNING.(payload := map["task" := "scan", "percent" := "50"])
  const DONE: Job := HALFWAY.(status := Completed, payload := map["task" := "scan", "percent" := "50", "result" := "ok"])

  function OneJob(job: Job, at: Position): System {
    System(Queue(map[0 := job], 1), map["w" := Worker(at, None)])
  }

  lemma JobIsQueued()
    ensures Step(Step(FRESH, Enqueue(TASK)), Start("w", None)) == OneJob(QUEUED, Idle)
  {
    assert Enqueued(FRESH.queue, TASK) == (Queue(map[0 := QUEUED], 1), Some(0));
  }

  lemma JobIsSelected()
    ensures Step(OneJob(QUEUED, Idle), Select("w", 9, 0)) == OneJob(QUEUED, Selected(0))
  {
    assert IsNextJob(map[0 := QUEUED], None, 9, 0);
  }

  lemma JobIsClaimed(s: System)
    requires s == OneJob(QUEUED, Selected(0))
    ensures Step(s, Claim("w")) == OneJob(RUNNING, Holding(0))
  {
    assert Claimed(s.queue.rows, 0, "w") == map[0 := RUNNING];
  }

  lemma JobReports(s: System)
    requires s == OneJob(RUNNING, Holding(0))
    ensures Step(s, Progress("w", map["percent" := "50"])) == OneJob(HALFWAY, Holding(0))
  {
    assert Merged(RUNNING.payload, map["percent" := "50"]) == HALFWAY.payload;
    assert WithPayload(s.queue.rows, 0, map["percent" := "50"]) == map[0 := HALFWAY];
  }

  lemma JobCompletes(s: System)
    requires s == OneJob(HALFWAY, Holding(0))
    ensures Step(s, Complete("w", Some("ok"))) == OneJob(DONE, Idle)
  {
    assert Merged(HALFWAY.payload, map["result" := "ok"]) == DONE.payload;
    assert Finished(s.queue.rows, 0, Some("ok")) == map[0 := DONE];
  }

  /** A job is queued, selected, claimed, reported on and completed, step by step. */
  lemma OneJobRuns()
    ensures StateAfter([Enqueue(TASK), Start("w", None), Select("w", 9, 0), Claim("w"),
                        Progress("w", map["percent" := "50"]), Complete("w", Some("ok"))]) == OneJob(DONE, Idle)
  {
    var start, select, claim := Start("w", None), Select("w", 9, 0), Claim("w");
    var report, complete := Progress("w", map["percent" := "50"]), Complete("w", Some("ok"));
    JobIsQueued();
    JobIsSelected();
    JobIsClaimed(OneJob(QUEUED, Selected(0)));
    JobReports(OneJob(RUNNING, Holding(0)));
    JobCompletes(OneJob(HALFWAY, Holding(0)));
    var asked := [Enqueue(TASK)];
    Then([], Enqueue(TASK), asked);
    Then(asked, start, [Enqueue(TASK), start]);
    Then([Enqueue(TASK), start], select, [Enqueue(TASK), start, select]);
    Then([Enqueue(TASK), start, select], claim, [Enqueue(TASK), start, select, claim]);
    Then([Enqueue(TASK), start, select, claim], report, [Enqueue(TASK), start, select, claim, report]);
    Then([Enqueue(TASK), start, select, claim, report], complete, [Enqueue(TASK), start, select, claim, report, complete]);
  }

  lemma Then(events: seq<Event>, e: Event, after: seq<Event>)
    requires after == events + [e]
    ensures StateAfter(after) == Step(StateAfter(events), e)
  {
    assert after[..|events|] == events;
  }
}
