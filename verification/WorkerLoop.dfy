/**
 One worker's loop: refresh the poll settings, claim a job, run it, record the outcome, or back off.

 The body of a job is an oracle; delays are exact numbers of seconds.
 */
module WorkerLoop {
  import opened Common
  import opened JobQueue
  import opened WorkerProtocol

  const DEFAULT_IDLE_POLL_MIN_SECONDS: real := 0.5
  const DEFAULT_IDLE_POLL_MAX_SECONDS: real := 5.0
  const IDLE_POLL_BACKOFF_FACTOR: real := 2.0

  /** Stored settings, each possibly unset. */
  datatype PollSettings = PollSettings(minSeconds: Option<real>, maxSeconds: Option<real>)

  /** How the body of a job ends. */
  datatype RunOutcome = Returned(result: Option<string>) | Raised

  function Min(a: real, b: real): real {
    if b < a then b else a
  }

  function Max(a: real, b: real): real {
    if b > a then b else a
  }

  /** Defaults fill the gaps, and the upper bound gives way to the lower one. */
  function LoadPollSettings(stored: Option<PollSettings>): (bounds: (real, real))
    ensures bounds.0 <= bounds.1
  {
    var low := if stored.Some? && stored.value.minSeconds.Some? then stored.value.minSeconds.value
               else DEFAULT_IDLE_POLL_MIN_SECONDS;
    var high := if stored.Some? && stored.value.maxSeconds.Some? then stored.value.maxSeconds.value
                else DEFAULT_IDLE_POLL_MAX_SECONDS;
    (low, Max(high, low))
  }

  /** Stored bounds are used as they are unless they cross; half a second and five seconds stand in for missing ones. */
  lemma PollSettingsIff(low: real, high: real)
    ensures LoadPollSettings(None) == (0.5, 5.0)
    ensures low <= high ==> LoadPollSettings(Some(PollSettings(Some(low), Some(high)))) == (low, high)
    ensures low > high ==> LoadPollSettings(Some(PollSettings(Some(low), Some(high)))) == (low, low)
    ensures low <= 5.0 ==> LoadPollSettings(Some(PollSettings(Some(low), None))) == (low, 5.0)
    ensures 0.5 <= high ==> LoadPollSettings(Some(PollSettings(None, Some(high)))) == (0.5, high)
  {
  }

  ghost function AfterIdlePoll(delay: real, high: real): real {
    Min(delay * IDLE_POLL_BACKOFF_FACTOR, high)
  }

  /** The delay after `n` polls in a row that found nothing. */
  ghost function AfterIdlePolls(delay: real, high: real, n: nat): real {
    if n == 0 then delay else AfterIdlePoll(AfterIdlePolls(delay, high, n - 1), high)
  }

  /** `low` doubled `n` times. */
  ghost function Doubled(low: real, n: nat): real {
    if n == 0 then low else Doubled(low, n - 1) * 2.0
  }

  /** The back-off is a capped doubling: it grows from the lower bound and never leaves the bounds. */
  lemma {:induction false} BackOffIsCappedDoubling(low: real, high: real, n: nat)
    requires 0.0 <= low <= high
    ensures AfterIdlePolls(low, high, n) == Min(Doubled(low, n), high)
    ensures low <= AfterIdlePolls(low, high, n) <= high
    ensures low <= Doubled(low, n)
  {
    if n > 0 {
      BackOffIsCappedDoubling(low, high, n - 1);
    }
  }

  ghost function StepAll(s: System, events: seq<Event>): System
    decreases |events|
  {
    if events == [] then s else StepAll(Step(s, events[0]), events[1..])
  }

  /** The transactions of one uninterrupted iteration. */
  ghost function IterationEvents(worker: WorkerId, now: int, claimed: Option<JobId>, run: RunOutcome): seq<Event> {
    if claimed.None? then []
    else [Select(worker, now, claimed.value), Claim(worker),
          if run.Returned? then Complete(worker, run.result) else Fail(worker)]
  }

  lemma IterationIsThreeSteps(s: System, worker: WorkerId, now: int, id: JobId, run: RunOutcome)
    requires IsAt(s, worker, Idle) && IsNextJob(s.queue.rows, s.workers[worker].allowed, now, id)
    ensures var after := StepAll(s, IterationEvents(worker, now, Some(id), run));
      var claimed := Claimed(s.queue.rows, id, worker);
      && IsAt(after, worker, Idle)
      && after.queue == s.queue.(rows := if run.Returned? then Finished(claimed, id, run.result) else Broken(claimed, id))
  {
    var selected := Step(s, Select(worker, now, id));
    var held := Step(selected, Claim(worker));
    var last := if run.Returned? then Complete(worker, run.result) else Fail(worker);
    assert StepAll(Step(held, last), []) == Step(held, last);
    assert StepAll(held, [last]) == Step(held, last);
    assert [Claim(worker), last][1..] == [last];
    assert StepAll(selected, [Claim(worker), last]) == Step(held, last);
    assert IterationEvents(worker, now, Some(id), run)[1..] == [Claim(worker), last];
  }

  class Loop {
    const worker: WorkerId
    const allowed: Option<set<JobType>>
    var pollMinSeconds: real
    var pollMaxSeconds: real
    var idlePollDelay: real

    ghost predicate Valid()
      reads this
    {
      pollMinSeconds <= idlePollDelay <= pollMaxSeconds
    }

    constructor (worker: WorkerId, allowed: Option<set<JobType>>, stored: Option<PollSettings>)
      ensures Valid() && this.worker == worker && this.allowed == allowed
      ensures (pollMinSeconds, pollMaxSeconds) == LoadPollSettings(stored) && idlePollDelay == pollMinSeconds
    {
      var bounds := LoadPollSettings(stored);
      this.worker := worker;
      this.allowed := allowed;
      pollMinSeconds, pollMaxSeconds := bounds.0, bounds.1;
      idlePollDelay := bounds.0;
    }

    /** Settings read again while the loop runs pull the current delay between the new bounds. */
    method RefreshPollSettings(stored: Option<PollSettings>)
      modifies this
      ensures Valid() && (pollMinSeconds, pollMaxSeconds) == LoadPollSettings(stored)
      ensures idlePollDelay == if old(idlePollDelay) < pollMinSeconds then pollMinSeconds
                               else if old(idlePollDelay) > pollMaxSeconds then pollMaxSeconds else old(idlePollDelay)
    {
      var bounds := LoadPollSettings(stored);
      pollMinSeconds, pollMaxSeconds := bounds.0, bounds.1;
      idlePollDelay := Min(Max(idlePollDelay, pollMinSeconds), pollMaxSeconds);
    }

    /**
     One iteration with nobody else at the table. It is the select, claim and complete-or-fail steps
     of the protocol, it leaves the worker idle, and it backs off exactly when nothing is due.
     */
    method Iterate(table: JobTable, now: int, run: RunOutcome) returns (claimed: Option<JobId>)
      requires Valid() && 0.0 <= pollMinSeconds
      modifies this`idlePollDelay, table
      ensures Valid()
      ensures claimed.None? <==> forall id :: !IsDue(old(table.rows), allowed, now, id)
      ensures claimed.Some? ==> IsNextJob(old(table.rows), allowed, now, claimed.value)
      ensures idlePollDelay == if claimed.Some? then pollMinSeconds
                               else if old(idlePollDelay) * 2.0 > pollMaxSeconds then pollMaxSeconds else old(idlePollDelay) * 2.0
      ensures forall s: System ::
        s.queue == old(table.State()) && IsAt(s, worker, Idle) && s.workers[worker].allowed == allowed ==>
          var after := StepAll(s, IterationEvents(worker, now, claimed, run));
          after.queue == table.State() && IsAt(after, worker, Idle)
    {
      ghost var before := table.State();
      claimed := table.SelectNextJob(allowed, now);
      if claimed.None? {
        idlePollDelay := Min(idlePollDelay * IDLE_POLL_BACKOFF_FACTOR, pollMaxSeconds);
        return;
      }
      var ok := table.ClaimSelectedJob(claimed.value, worker);
      idlePollDelay := pollMinSeconds;
      match run {
        case Returned(result) => table.CompleteBackgroundJob(claimed.value, result);
        case Raised => table.FailBackgroundJob(claimed.value);
      }
      forall s: System | s.queue == before && IsAt(s, worker, Idle) && s.workers[worker].allowed == allowed
        ensures var after := StepAll(s, IterationEvents(worker, now, claimed, run));
          after.queue == table.State() && IsAt(after, worker, Idle)
      {
        IterationIsThreeSteps(s, worker, now, claimed.value, run);
      }
    }
  }
}
