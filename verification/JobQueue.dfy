/**
 The durable job table and the transactions on it.

 Each method is one committed transaction. `EnqueueBackgroundJob` is treated as atomic although its
 check and its insert are separate statements; the two phases of a claim are separate here as well.
 */
module JobQueue {
  import opened Common

  datatype JobType = ServiceToggle | TaskRun | CandidateFileOp

  datatype Status = Pending | Running | Completed | Failed | Canceled
  {
    predicate IsFinal() {
      Completed? || Failed? || Canceled?
    }
  }

  type JobId = nat
  type WorkerId = string
  type Payload = map<string, string>

  datatype Job = Job(jobType: JobType, status: Status, payload: Payload, dedupeKey: Option<string>,
                     scheduledAt: int, attempts: nat, claimedBy: Option<WorkerId>)

  type Rows = map<JobId, Job>

  datatype Queue = Queue(rows: Rows, nextId: JobId)

  /** A request to enqueue; an absent or empty key switches deduplication off. */
  datatype Request = Request(jobType: JobType, payload: Payload, runAt: int, dedupeKey: Option<string>,
                             replacePending: bool, skipIfActive: bool)
  {
    predicate HasKey() {
      dedupeKey.Some? && dedupeKey.value != []
    }
  }

  // ---- what the transactions do ----

  predicate PendingWithKey(job: Job, key: string) {
    job.dedupeKey == Some(key) && job.status == Pending
  }

  predicate ActiveWithKey(job: Job, key: string) {
    job.dedupeKey == Some(key) && (job.status == Pending || job.status == Running)
  }

  function WithoutPending(rows: Rows, key: string): Rows {
    map id | id in rows :: if PendingWithKey(rows[id], key) then rows[id].(status := Canceled) else rows[id]
  }

  predicate HasActive(rows: Rows, key: string) {
    exists id :: id in rows && ActiveWithKey(rows[id], key)
  }

  function NewJob(r: Request): Job {
    Job(r.jobType, Pending, r.payload, r.dedupeKey, r.runAt, 0, None)
  }

  function AfterReplacing(rows: Rows, r: Request): Rows {
    if r.replacePending && r.HasKey() then WithoutPending(rows, r.dedupeKey.value) else rows
  }

  /** A skipped request leaves no trace: the session closes without a commit. */
  function Enqueued(q: Queue, r: Request): (Queue, Option<JobId>) {
    if r.skipIfActive && r.HasKey() && HasActive(AfterReplacing(q.rows, r), r.dedupeKey.value) then (q, None)
    else (Queue(AfterReplacing(q.rows, r)[q.nextId := NewJob(r)], q.nextId + 1), Some(q.nextId))
  }

  predicate IsAllowed(allowed: Option<set<JobType>>, t: JobType) {
    allowed.None? || t in allowed.value
  }

  /** A row the claim query could return. */
  predicate IsDue(rows: Rows, allowed: Option<set<JobType>>, now: int, id: JobId) {
    id in rows && rows[id].status == Pending && rows[id].scheduledAt <= now && IsAllowed(allowed, rows[id].jobType)
  }

  /** Order of the claim query: by scheduled time, then by id. */
  predicate NoLater(rows: Rows, a: JobId, b: JobId)
    requires a in rows && b in rows
  {
    rows[a].scheduledAt < rows[b].scheduledAt || (rows[a].scheduledAt == rows[b].scheduledAt && a <= b)
  }

  /** The row the claim query returns: the earliest, and among those the oldest, due job. */
  ghost predicate IsNextJob(rows: Rows, allowed: Option<set<JobType>>, now: int, id: JobId) {
    && IsDue(rows, allowed, now, id)
    && forall other :: IsDue(rows, allowed, now, other) ==> NoLater(rows, id, other)
  }

  predicate IsPending(rows: Rows, id: JobId) {
    id in rows && rows[id].status == Pending
  }

  function Claimed(rows: Rows, id: JobId, worker: WorkerId): Rows {
    if IsPending(rows, id) then
      rows[id := rows[id].(status := Running, claimedBy := Some(worker), attempts := rows[id].attempts + 1)]
    else rows
  }

  function Merged(payload: Payload, updates: Payload): Payload {
    payload + updates
  }

  function WithPayload(rows: Rows, id: JobId, updates: Payload): Rows {
    if id in rows then rows[id := rows[id].(payload := Merged(rows[id].payload, updates))] else rows
  }

  function Finished(rows: Rows, id: JobId, result: Option<string>): Rows {
    if id in rows then
      var payload := if result.Some? then Merged(rows[id].payload, map["result" := result.value]) else rows[id].payload;
      rows[id := rows[id].(status := Completed, payload := payload)]
    else rows
  }

  function Broken(rows: Rows, id: JobId): Rows {
    if id in rows then rows[id := rows[id].(status := Failed)] else rows
  }

  function WithoutStale(rows: Rows): Rows {
    map id | id in rows :: if rows[id].status == Running then rows[id].(status := Failed) else rows[id]
  }

  // ---- what they mean for the rows ----

  /** A job as it was asked for. */
  predicate IsAsAsked(job: Job, r: Request) {
    && job.jobType == r.jobType && job.payload == r.payload && job.dedupeKey == r.dedupeKey && job.scheduledAt == r.runAt
    && job.status == Pending && job.attempts == 0 && job.claimedBy == None
  }

  /** A request that cancels pending jobs, and the jobs it cancels. */
  predicate Replaces(r: Request, job: Job) {
    && r.replacePending && job.status == Pending
    && job.dedupeKey.Some? && |job.dedupeKey.value| > 0 && r.dedupeKey == job.dedupeKey
  }

  /** A job a request yields to: one of its key that runs, or that is pending and not to be replaced. */
  predicate YieldsTo(r: Request, job: Job) {
    && r.skipIfActive && job.dedupeKey.Some? && |job.dedupeKey.value| > 0 && r.dedupeKey == job.dedupeKey
    && (job.status == Running || (job.status == Pending && !r.replacePending))
  }

  /** A request is refused exactly when there is a job it yields to, and then nothing changes. */
  lemma RefusedIff(q: Queue, r: Request)
    ensures Enqueued(q, r).1 == None <==> exists id :: id in q.rows && YieldsTo(r, q.rows[id])
    ensures Enqueued(q, r).1 == None ==> Enqueued(q, r).0 == q
  {
    var rows := AfterReplacing(q.rows, r);
    assert forall id :: id in q.rows ==> id in rows;
    if r.HasKey() {
      var key := r.dedupeKey.value;
      forall id | id in q.rows && r.skipIfActive ensures YieldsTo(r, q.rows[id]) <==> ActiveWithKey(rows[id], key) {
      }
    }
  }

  /** An accepted request is stored as asked under the next id; of the others only the replaced jobs change. */
  lemma AcceptedIsStored(q: Queue, r: Request)
    requires Enqueued(q, r).1.Some?
    ensures var (after, id) := Enqueued(q, r);
      && id == Some(q.nextId) && after.nextId == q.nextId + 1
      && after.rows.Keys == q.rows.Keys + {q.nextId} && IsAsAsked(after.rows[q.nextId], r)
      && forall k :: k in q.rows && k != q.nextId ==>
           after.rows[k] == if Replaces(r, q.rows[k]) then q.rows[k].(status := Canceled) else q.rows[k]
  {
  }

  /** The next job is pending, due and of an allowed type, and no such job is scheduled earlier, or as early and older. */
  lemma NextJobIff(rows: Rows, allowed: Option<set<JobType>>, now: int, id: JobId)
    ensures IsNextJob(rows, allowed, now, id) <==>
      && id in rows && rows[id].status == Pending && rows[id].scheduledAt <= now
      && (allowed.Some? ==> rows[id].jobType in allowed.value)
      && forall k :: k in rows && rows[k].status == Pending && (allowed.Some? ==> rows[k].jobType in allowed.value) ==>
           rows[id].scheduledAt < rows[k].scheduledAt || (rows[id].scheduledAt == rows[k].scheduledAt && id <= k)
  {
    if IsNextJob(rows, allowed, now, id) {
      forall k | k in rows && rows[k].status == Pending && IsAllowed(allowed, rows[k].jobType)
        ensures rows[id].scheduledAt < rows[k].scheduledAt || (rows[id].scheduledAt == rows[k].scheduledAt && id <= k)
      {
        if rows[k].scheduledAt <= now {
          assert IsDue(rows, allowed, now, k);
        }
      }
    }
  }

  /** Row `id` alone is different, and there only in what `changed` gives it. */
  ghost predicate ChangesTo(before: Rows, after: Rows, id: JobId, changed: Job) {
    after.Keys == before.Keys && forall k :: k in before ==> after[k] == if k == id then changed else before[k]
  }

  /** Every entry is the one of `updates`, where it has one, or the old one. */
  ghost predicate IsUpdated(before: Payload, updates: Payload, after: Payload) {
    && (forall k :: k in after <==> k in before || k in updates)
    && (forall k :: k in after ==> after[k] == if k in updates then updates[k] else before[k])
  }

  /** A claim, an update, a completion and a failure each change one row, in these fields. */
  lemma TransactionsOnOneRow(rows: Rows, id: JobId, worker: WorkerId, updates: Payload, result: Option<string>)
    requires id in rows
    ensures rows[id].status == Pending ==>
      ChangesTo(rows, Claimed(rows, id, worker), id,
                Job(rows[id].jobType, Running, rows[id].payload, rows[id].dedupeKey, rows[id].scheduledAt, rows[id].attempts + 1, Some(worker)))
    ensures rows[id].status != Pending ==> Claimed(rows, id, worker) == rows
    ensures var payload := WithPayload(rows, id, updates)[id].payload;
      && IsUpdated(rows[id].payload, updates, payload)
      && ChangesTo(rows, WithPayload(rows, id, updates), id, rows[id].(payload := payload))
    ensures var payload := Finished(rows, id, result)[id].payload;
      && IsUpdated(rows[id].payload, if result.Some? then map["result" := result.value] else map[], payload)
      && ChangesTo(rows, Finished(rows, id, result), id, rows[id].(status := Completed, payload := payload))
    ensures ChangesTo(rows, Broken(rows, id), id, rows[id].(status := Failed))
  {
  }

  /** Cancelling changes the pending rows of a key and nothing else, the startup reset the running rows. */
  lemma TransactionsOnManyRows(rows: Rows, key: string, id: JobId)
    ensures WithoutPending(rows, key).Keys == WithoutStale(rows).Keys == rows.Keys
    ensures id in rows ==>
      && WithoutPending(rows, key)[id]
           == (if rows[id].status == Pending && rows[id].dedupeKey == Some(key) then rows[id].(status := Canceled) else rows[id])
      && WithoutStale(rows)[id] == if rows[id].status == Running then rows[id].(status := Failed) else rows[id]
  {
  }

  // ---- the table ----

  class JobTable {
    var rows: Rows
    var nextId: JobId

    ghost function State(): Queue
      reads this
    {
      Queue(rows, nextId)
    }

    constructor ()
      ensures State() == Queue(map[], 0)
    {
      rows := map[];
      nextId := 0;
    }

    method EnqueueBackgroundJob(r: Request) returns (jobId: Option<JobId>)
      modifies this
      ensures (State(), jobId) == Enqueued(old(State()), r)
      ensures jobId == None <==> exists id :: id in old(rows) && YieldsTo(r, old(rows)[id])
      ensures jobId == None ==> State() == old(State())
      ensures jobId.Some? ==> jobId.value in rows && IsAsAsked(rows[jobId.value], r)
    {
      RefusedIff(State(), r);
      var before := rows;
      if r.replacePending && r.HasKey() {
        rows := WithoutPending(rows, r.dedupeKey.value);
      }
      if r.skipIfActive && r.HasKey() {
        if HasActive(rows, r.dedupeKey.value) {
          rows := before;
          return None;
        }
      }
      jobId := Some(nextId);
      rows := rows[nextId := NewJob(r)];
      nextId := nextId + 1;
    }

    /** First phase of a claim: the SELECT. */
    method SelectNextJob(allowed: Option<set<JobType>>, now: int) returns (jobId: Option<JobId>)
      ensures jobId.Some? ==> IsNextJob(rows, allowed, now, jobId.value)
      ensures jobId.None? ==> forall id :: !IsDue(rows, allowed, now, id)
    {
      jobId := None;
      if allowed == Some({}) {
        return;
      }
      var todo := rows.Keys;
      while todo != {}
        invariant todo <= rows.Keys
        invariant jobId.Some? ==> IsDue(rows, allowed, now, jobId.value)
        invariant forall id :: IsDue(rows, allowed, now, id) && id !in todo ==>
          jobId.Some? && NoLater(rows, jobId.value, id)
        decreases |todo|
      {
        var id :| id in todo;
        todo := todo - {id};
        if IsDue(rows, allowed, now, id) && (jobId.None? || NoLater(rows, id, jobId.value)) {
          jobId := Some(id);
        }
      }
    }

    /** Second phase of a claim: the conditional UPDATE. */
    method ClaimSelectedJob(id: JobId, worker: WorkerId) returns (ok: bool)
      modifies this`rows
      ensures ok == IsPending(old(rows), id)
      ensures rows == Claimed(old(rows), id, worker)
    {
      ok := IsPending(rows, id);
      if ok {
        rows := rows[id := rows[id].(status := Running, claimedBy := Some(worker), attempts := rows[id].attempts + 1)];
      }
    }

    method CompleteBackgroundJob(id: JobId, result: Option<string>)
      modifies this`rows
      ensures rows == Finished(old(rows), id, result)
    {
      if id in rows {
        var payload := rows[id].payload;
        if result.Some? {
          payload := payload + map["result" := result.value];
        }
        rows := rows[id := rows[id].(status := Completed, payload := payload)];
      }
    }

    method UpdateBackgroundJobPayload(id: JobId, updates: Payload)
      modifies this`rows
      ensures rows == WithPayload(old(rows), id, updates)
    {
      if id in rows {
        rows := rows[id := rows[id].(payload := rows[id].payload + updates)];
      }
    }

    method FailBackgroundJob(id: JobId)
      modifies this`rows
      ensures rows == Broken(old(rows), id)
    {
      if id in rows {
        rows := rows[id := rows[id].(status := Failed)];
      }
    }

    method ResetStaleJobs() returns (count: nat)
      modifies this`rows
      ensures rows == WithoutStale(old(rows))
      ensures count == |set id | id in old(rows) && old(rows)[id].status == Running|
    {
      var stale := set id | id in rows && rows[id].status == Running;
      count := |stale|;
      rows := WithoutStale(rows);
    }

    method CancelPendingBackgroundJobsByDedupeKey(key: string) returns (count: nat)
      modifies this`rows
      ensures rows == WithoutPending(old(rows), key)
      ensures count == |set id | id in old(rows) && PendingWithKey(old(rows)[id], key)|
    {
      var canceled := set id | id in rows && PendingWithKey(rows[id], key);
      count := |canceled|;
      rows := WithoutPending(rows, key);
    }
  }
}
