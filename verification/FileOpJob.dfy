/**
 The background job that deletes or moves candidates one by one, and what it records about the
 delete request behind it.

 Every awaited step is an outcome chosen by the environment: a write may be lost, or reach the
 database and then raise; an operation may finish or raise; and each raise is either an ordinary
 error, which the job handles, or a cancellation, which it does not.
 */
module FileOpJob {
  import opened Common
  import opened Quotients

  datatype Fault = Error(message: string) | Cancelled

  datatype WriteOutcome = Stored | StoredThen(fault: Fault) | Lost(fault: Fault)

  datatype OpOutcome = Finished(succeeded: nat, failed: nat) | Stopped(fault: Fault)

  datatype Operation = Delete | Move | Other(name: string)

  /** What one job is asked to do and everything that will happen to it. */
  datatype Plan = Plan(
    operation: Operation,
    total: nat,
    deletes: nat -> OpOutcome,
    moves: nat -> OpOutcome,
    writes: nat -> WriteOutcome,
    hasRequest: bool,
    finish: WriteOutcome,
    summarize: string -> string)

  /** The progress shown to users. */
  datatype Progress = Progress(total: nat, completed: nat, failed: nat, percent: nat)

  datatype DeleteRequest = DeleteRequest(executed: bool, error: Option<string>)

  datatype Candidate = Candidate(lastDeleteError: Option<string>)

  /** The rows a job may change at its end: its delete request and its first candidate. */
  datatype Rows = Rows(request: Option<DeleteRequest>, candidate: Option<Candidate>)

  datatype Result = Returned(processed: nat, succeeded: nat, failed: nat) | Raised(fault: Fault)

  /** The counters of a run, the writes it has tried and the progress it has stored. */
  datatype Tally = Tally(calls: nat, completed: nat, succeeded: nat, failed: nat, shown: seq<Progress>)

  function Percent(completed: nat, total: nat): nat {
    if total == 0 then 100
    else
      var percent := completed * 100 / total;
      if percent > 100 then 100 else percent
  }

  function FaultOf(w: WriteOutcome): Option<Fault> {
    match w
    case Stored => None
    case StoredThen(fault) => Some(fault)
    case Lost(fault) => Some(fault)
  }

  function Perform(plan: Plan, i: nat): OpOutcome {
    match plan.operation
    case Delete => plan.deletes(i)
    case Move => plan.moves(i)
    case Other(name) => Stopped(Error("Unsupported candidate file operation: " + name))
  }

  // ---- a run, as a function ----

  function Persisted(plan: Plan, t: Tally): Tally {
    t.(calls := t.calls + 1,
       shown := t.shown + if plan.writes(t.calls).Lost? then []
                          else [Progress(plan.total, t.completed, t.failed, Percent(t.completed, plan.total))])
  }

  /** One candidate finished; one that was already gone counts as a success. */
  function Counted(t: Tally, succeeded: nat, failed: nat): Tally {
    t.(completed := t.completed + 1,
       succeeded := t.succeeded + (if succeeded == 0 && failed == 0 then 1 else succeeded),
       failed := t.failed + failed)
  }

  /** One turn of the loop, for candidate `i`: the tally behind it, and the fault that ends the loop. */
  function Turn(plan: Plan, i: nat, t: Tally): (Tally, Option<Fault>) {
    var before := FaultOf(plan.writes(t.calls));
    var u := Persisted(plan, t);
    if before.Some? then (u, before)
    else
      match Perform(plan, i)
      case Stopped(fault) => (u, Some(fault))
      case Finished(s, f) =>
        var v := Counted(u, s, f);
        (Persisted(plan, v), FaultOf(plan.writes(v.calls)))
  }

  /** The loop from candidate `i` on: the tally where it ends, and the fault that ended it early. */
  function Looped(plan: Plan, i: nat, t: Tally): (Tally, Option<Fault>)
    decreases plan.total - i
  {
    if i >= plan.total then (t, None)
    else
      var (u, fault) := Turn(plan, i, t);
      if fault.Some? then (u, fault) else Looped(plan, i + 1, u)
  }

  function Start(): Tally {
    Tally(0, 0, 0, 0, [])
  }

  /** The first text that is present and not empty. */
  function OrElse(text: Option<string>, other: string): string {
    if text.Some? && text.value != "" then text.value else other
  }

  /** What finalising records for a request: executed with no failure, or an error and no candidate. */
  function Finalized(plan: Plan, rows: Rows, succeeded: nat, failed: nat, fallback: Option<string>): Rows {
    if rows.request.None? || plan.finish.Lost? then rows
    else if succeeded > 0 && failed == 0 then rows.(request := Some(DeleteRequest(true, None)))
    else
      var candidate := if plan.total > 0 then rows.candidate else None;
      var own := if candidate.Some? then candidate.value.lastDeleteError else None;
      var summary := plan.summarize(OrElse(own, OrElse(fallback, "Deletion failed")));
      Rows(Some(rows.request.value.(error := Some(OrElse(Some(summary), "Deletion failed")))),
           if candidate.Some? then None else rows.candidate)
  }

  datatype Run = Run(tally: Tally, rows: Rows, result: Result)

  /** What follows the loop: the one write outside it, the request, and how the run ends. */
  function Settled(plan: Plan, rows: Rows, t: Tally, fault: Option<Fault>): Run {
    if fault == Some(Cancelled) then Run(t, rows, Raised(Cancelled))
    else
      var write := FaultOf(plan.writes(t.calls));
      var u := Persisted(plan, t);
      if write.Some? then Run(u, rows, Raised(write.value))
      else
        var left := plan.total - t.completed;
        var failed := if fault.Some? && t.failed < left then left else t.failed;
        var fallback := if fault.Some? then Some(fault.value.message) else None;
        var settled := if plan.hasRequest then Finalized(plan, rows, t.succeeded, failed, fallback) else rows;
        var finish := if plan.hasRequest then FaultOf(plan.finish) else None;
        Run(u, settled,
            if finish.Some? then Raised(finish.value)
            else if fault.Some? then Raised(fault.value)
            else Returned(plan.total, t.succeeded, t.failed))
  }

  /** A whole run of the job. */
  function RunOf(plan: Plan, rows: Rows): Run {
    var (t, fault) := Looped(plan, 0, Start());
    Settled(plan, rows, t, fault)
  }

  // ---- the job itself ----

  class CandidateFileOpJob {
    const plan: Plan
    /** Writes of progress tried so far. */
    var calls: nat
    var shown: seq<Progress>
    /** The rows as the operations leave them. */
    var rows: Rows

    constructor (plan: Plan, rows: Rows)
      ensures this.plan == plan && this.rows == rows && calls == 0 && shown == []
    {
      this.plan := plan;
      this.rows := rows;
      calls := 0;
      shown := [];
    }

    method PersistProgress(completed: nat, failedCount: nat, ghost succeeded: nat) returns (fault: Option<Fault>)
      modifies this`calls, this`shown
      ensures fault == FaultOf(plan.writes(old(calls))) && calls == old(calls) + 1
      ensures Tally(calls, completed, succeeded, failedCount, shown)
        == Persisted(plan, Tally(old(calls), completed, succeeded, failedCount, old(shown)))
    {
      var outcome := plan.writes(calls);
      calls := calls + 1;
      if !outcome.Lost? {
        shown := shown + [Progress(plan.total, completed, failedCount, Percent(completed, plan.total))];
      }
      fault := FaultOf(outcome);
    }

    method FinalizeDeleteRequestJob(succeeded: nat, failed: nat, fallback: Option<string>) returns (fault: Option<Fault>)
      modifies this`rows
      ensures rows == Finalized(plan, old(rows), succeeded, failed, fallback) && fault == FaultOf(plan.finish)
    {
      fault := FaultOf(plan.finish);
      if rows.request.None? || plan.finish.Lost? {
        return;
      }
      var request := rows.request.value;
      var candidate := if plan.total > 0 then rows.candidate else None;
      if succeeded > 0 && failed == 0 {
        request := DeleteRequest(true, None);
      } else {
        var own := if candidate.Some? then candidate.value.lastDeleteError else None;
        var error := plan.summarize(OrElse(own, OrElse(fallback, "Deletion failed")));
        if error == "" {
          error := "Deletion failed";
        }
        request := request.(error := Some(error));
        if candidate.Some? {
          rows := rows.(candidate := None);
        }
      }
      rows := rows.(request := Some(request));
    }

    /** One candidate; the counters change when its operation finishes. */
    method ProcessCandidate(completed: nat, succeededBefore: nat, failedBefore: nat)
      returns (completedItems: nat, succeeded: nat, failed: nat, fault: Option<Fault>)
      modifies this`calls, this`shown
      ensures (Tally(calls, completedItems, succeeded, failed, shown), fault)
        == Turn(plan, completed, Tally(old(calls), completed, succeededBefore, failedBefore, old(shown)))
      ensures completedItems <= completed + 1 && (fault.None? ==> completedItems == completed + 1)
    {
      completedItems, succeeded, failed := completed, succeededBefore, failedBefore;
      fault := PersistProgress(completedItems, failed, succeeded);
      if fault.Some? {
        return;
      }
      var outcome := Perform(plan, completed);
      if outcome.Stopped? {
        fault := Some(outcome.fault);
        return;
      }
      succeeded := succeeded + if outcome.succeeded == 0 && outcome.failed == 0 then 1 else outcome.succeeded;
      failed := failed + outcome.failed;
      completedItems := completedItems + 1;
      fault := PersistProgress(completedItems, failed, succeeded);
    }

    /** The candidates one by one, up to the first fault. */
    method ProcessCandidates() returns (completedItems: nat, succeeded: nat, failed: nat, fault: Option<Fault>)
      requires calls == 0 && shown == []
      modifies this`calls, this`shown
      ensures (Tally(calls, completedItems, succeeded, failed, shown), fault) == Looped(plan, 0, Start())
      ensures completedItems <= plan.total
    {
      succeeded, failed, completedItems := 0, 0, 0;
      fault := None;
      while completedItems < plan.total
        invariant completedItems <= plan.total
        invariant fault.None?
        invariant Looped(plan, completedItems, Tally(calls, completedItems, succeeded, failed, shown)) == Looped(plan, 0, Start())
      {
        completedItems, succeeded, failed, fault := ProcessCandidate(completedItems, succeeded, failed);
        if fault.Some? {
          return;
        }
      }
    }

    method RunCandidateFileOpJob() returns (result: Result)
      requires calls == 0 && shown == []
      modifies this
      ensures var run := RunOf(plan, old(rows));
        result == run.result && rows == run.rows && calls == run.tally.calls && shown == run.tally.shown
    {
      var completedItems, succeeded, failed, fault := ProcessCandidates();
      if fault == Some(Cancelled) {
        return Raised(Cancelled);
      }
      var write := PersistProgress(completedItems, failed, succeeded);
      if write.Some? {
        return Raised(write.value);
      }
      var finish: Option<Fault> := None;
      if fault.Some? {
        if plan.hasRequest {
          var left := plan.total - completedItems;
          finish := FinalizeDeleteRequestJob(succeeded, if failed < left then left else failed, Some(fault.value.message));
        }
        return Raised(if finish.Some? then finish.value else fault.value);
      }
      if plan.hasRequest {
        finish := FinalizeDeleteRequestJob(succeeded, failed, None);
        if finish.Some? {
          return Raised(finish.value);
        }
      }
      result := Returned(plan.total, succeeded, failed);
    }
  }

  // ---- what the recorded outcome means ----

  predicate Succeeded(plan: Plan, i: nat) {
    Perform(plan, i).Finished? && Perform(plan, i).failed == 0
  }

  /** From candidate `i` on, the loop reaches every candidate's operation and none fails. */
  ghost predicate AllSucceedFrom(plan: Plan, i: nat) {
    && (forall k :: 2 * i <= k < 2 * plan.total - 1 ==> plan.writes(k).Stored?)
    && (forall j :: i <= j < plan.total ==> Succeeded(plan, j))
  }

  lemma AllSucceedStep(plan: Plan, i: nat)
    requires i < plan.total
    ensures AllSucceedFrom(plan, i) <==>
      && plan.writes(2 * i).Stored? && Succeeded(plan, i)
      && (i + 1 < plan.total ==> plan.writes(2 * i + 1).Stored?) && AllSucceedFrom(plan, i + 1)
  {
    if plan.writes(2 * i).Stored? && Succeeded(plan, i) && (i + 1 < plan.total ==> plan.writes(2 * i + 1).Stored?) && AllSucceedFrom(plan, i + 1) {
      forall k | 2 * i <= k < 2 * plan.total - 1 ensures plan.writes(k).Stored? {
        if k >= 2 * (i + 1) {
        } else if k == 2 * i + 1 {
        }
      }
    }
  }

  /** How the counters and the fault at the end of the loop tell what happened in it. */
  lemma {:induction false} LoopOutcome(plan: Plan, i: nat, t: Tally)
    requires t.calls == 2 * i && t.completed == i <= plan.total
    ensures var (r, fault) := Looped(plan, i, t);
      && i <= r.completed <= plan.total && t.failed <= r.failed
      && r.completed - i <= (r.succeeded - t.succeeded) + (r.failed - t.failed)
      && (r.failed == t.failed && r.completed == plan.total <==> AllSucceedFrom(plan, i))
      && (r.completed == plan.total > i ==> fault == FaultOf(plan.writes(2 * plan.total - 1)))
      && (r.completed == plan.total ==> r.calls == 2 * plan.total)
      && (fault.None? ==> r.completed == plan.total)
    decreases plan.total - i
  {
    if i < plan.total {
      AllSucceedStep(plan, i);
      if plan.writes(2 * i).Stored? && Perform(plan, i).Finished? {
        var v := Counted(Persisted(plan, t), Perform(plan, i).succeeded, Perform(plan, i).failed);
        if plan.writes(2 * i + 1).Stored? {
          LoopOutcome(plan, i + 1, Persisted(plan, v));
        }
      }
    }
  }

  /**
   Whatever strikes, a request is marked executed exactly when there was a candidate, every
   candidate's operation ran and none failed, the last write of the loop was not cancelled, the one
   progress write outside the loop succeeded and finalising committed.
   */
  lemma ExecutedExactlyWhenAllSucceeded(plan: Plan, rows: Rows)
    requires plan.hasRequest && rows.request.Some?
    ensures var request := RunOf(plan, rows).rows.request;
      request.Some? && (request.value.executed <==>
        || rows.request.value.executed
        || (&& plan.total > 0 && AllSucceedFrom(plan, 0)
            && FaultOf(plan.writes(2 * plan.total - 1)) != Some(Cancelled)
            && plan.writes(2 * plan.total).Stored?
            && !plan.finish.Lost?))
  {
    LoopOutcome(plan, 0, Start());
  }

  /**
   Exactly when a request is marked executed by a job that raises all the same: it is executed as
   above, and either the loop's last write failed or finalising raised after it had committed.
   */
  lemma ExecutedYetRaisedIff(plan: Plan, rows: Rows)
    requires plan.hasRequest && rows.request.Some? && !rows.request.value.executed
    ensures var run := RunOf(plan, rows);
      run.rows.request.Some? && (run.rows.request.value.executed && run.result.Raised? <==>
        && plan.total > 0 && AllSucceedFrom(plan, 0)
        && plan.writes(2 * plan.total).Stored? && !plan.finish.Lost?
        && FaultOf(plan.writes(2 * plan.total - 1)) != Some(Cancelled)
        && (FaultOf(plan.writes(2 * plan.total - 1)).Some? || plan.finish.StoredThen?))
  {
    LoopOutcome(plan, 0, Start());
  }

  /** One candidate is deleted, and only the progress write behind it fails. */
  const LAST_WRITE_FAILS: Plan := Plan(
    Delete, 1, i => Finished(1, 0), i => Finished(1, 0), n => if n == 1 then Lost(Error("locked")) else Stored, true, Stored, s => s)

  lemma LoopWithLastWriteFailing(plan: Plan)
    requires plan == LAST_WRITE_FAILS
    ensures var (t, fault) := Looped(plan, 0, Start());
      t.calls == 2 && t.completed == 1 && t.succeeded == 1 && t.failed == 0 && fault == Some(Error("locked"))
  {
    var u := Persisted(plan, Start());
    assert Perform(plan, 0) == Finished(1, 0);
    var v := Counted(u, 1, 0);
    assert v.calls == 1 && FaultOf(plan.writes(1)) == Some(Error("locked"));
    assert Looped(plan, 0, Start()) == (Persisted(plan, v), Some(Error("locked")));
  }

  lemma SettledAfterLastWriteFailed(plan: Plan, rows: Rows, t: Tally)
    requires plan == LAST_WRITE_FAILS && rows.request.Some?
    requires t.calls == 2 && t.completed == 1 && t.succeeded == 1 && t.failed == 0
    ensures var run := Settled(plan, rows, t, Some(Error("locked")));
      run.rows.request == Some(DeleteRequest(true, None)) && run.result == Raised(Error("locked"))
  {
    assert plan.writes(2) == Stored;
  }

  lemma ExecutedThoughLastWriteFails(rows: Rows)
    requires rows.request.Some?
    ensures var run := RunOf(LAST_WRITE_FAILS, rows);
      run.rows.request == Some(DeleteRequest(true, None)) && run.result == Raised(Error("locked"))
  {
    LoopWithLastWriteFailing(LAST_WRITE_FAILS);
    SettledAfterLastWriteFailed(LAST_WRITE_FAILS, rows, Looped(LAST_WRITE_FAILS, 0, Start()).0);
  }

  // ---- which operation is performed ----

  lemma {:induction false} LoopIgnoresTheOther(plan: Plan, other: nat -> OpOutcome, i: nat, t: Tally)
    ensures plan.operation == Delete ==> Looped(plan.(moves := other), i, t) == Looped(plan, i, t)
    ensures plan.operation == Move ==> Looped(plan.(deletes := other), i, t) == Looped(plan, i, t)
    decreases plan.total - i
  {
    if i < plan.total && plan.operation == Delete {
      assert Turn(plan.(moves := other), i, t) == Turn(plan, i, t);
      LoopIgnoresTheOther(plan, other, i + 1, Turn(plan, i, t).0);
    }
    if i < plan.total && plan.operation == Move {
      assert Turn(plan.(deletes := other), i, t) == Turn(plan, i, t);
      LoopIgnoresTheOther(plan, other, i + 1, Turn(plan, i, t).0);
    }
  }

  /** A delete job runs the same whatever moving would have done. */
  lemma DeletingIgnoresMoves(plan: Plan, moves: nat -> OpOutcome, rows: Rows)
    requires plan.operation == Delete
    ensures RunOf(plan.(moves := moves), rows) == RunOf(plan, rows)
  {
    LoopIgnoresTheOther(plan, moves, 0, Start());
  }

  /** A move job runs the same whatever deleting would have done. */
  lemma MovingIgnoresDeletes(plan: Plan, deletes: nat -> OpOutcome, rows: Rows)
    requires plan.operation == Move
    ensures RunOf(plan.(deletes := deletes), rows) == RunOf(plan, rows)
  {
    LoopIgnoresTheOther(plan, deletes, 0, Start());
  }

  /** Every operation reached its end without a failure, and no write up to the one outside the loop got in the way. */
  ghost predicate AllWentWell(plan: Plan, operation: nat -> OpOutcome) {
    && plan.total > 0
    && (forall j :: 0 <= j < plan.total ==> operation(j).Finished? && operation(j).failed == 0)
    && (forall k :: 0 <= k < 2 * plan.total - 1 ==> plan.writes(k) == Stored)
    && plan.writes(2 * plan.total - 1) != StoredThen(Cancelled) && plan.writes(2 * plan.total - 1) != Lost(Cancelled)
    && plan.writes(2 * plan.total) == Stored && !plan.finish.Lost?
  }

  /** A delete request is marked executed exactly when all deletions went well. */
  lemma DeleteExecutedExactly(plan: Plan, rows: Rows)
    requires plan.operation == Delete && plan.hasRequest && rows.request.Some?
    ensures var request := RunOf(plan, rows).rows.request;
      request.Some? && (request.value.executed <==> rows.request.value.executed || AllWentWell(plan, plan.deletes))
  {
    ExecutedExactlyWhenAllSucceeded(plan, rows);
    assert forall j :: Succeeded(plan, j) <==> plan.deletes(j).Finished? && plan.deletes(j).failed == 0;
  }

  /** A move request is marked executed exactly when all moves went well. */
  lemma MoveExecutedExactly(plan: Plan, rows: Rows)
    requires plan.operation == Move && plan.hasRequest && rows.request.Some?
    ensures var request := RunOf(plan, rows).rows.request;
      request.Some? && (request.value.executed <==> rows.request.value.executed || AllWentWell(plan, plan.moves))
  {
    ExecutedExactlyWhenAllSucceeded(plan, rows);
    assert forall j :: Succeeded(plan, j) <==> plan.moves(j).Finished? && plan.moves(j).failed == 0;
  }

  /** An unsupported operation on some candidate neither executes a request nor returns. */
  lemma UnsupportedNeverExecutes(plan: Plan, rows: Rows)
    requires plan.operation.Other? && plan.total > 0
    ensures var run := RunOf(plan, rows);
      && run.result.Raised?
      && (rows.request.Some? ==> run.rows.request.Some? && run.rows.request.value.executed == rows.request.value.executed)
  {
    LoopOutcome(plan, 0, Start());
    assert !Succeeded(plan, 0);
  }

  // ---- the counters ----

  ghost function Sum(operation: nat -> OpOutcome, count: OpOutcome -> nat, n: nat): nat {
    if n == 0 then 0 else Sum(operation, count, n - 1) + count(operation(n - 1))
  }

  function Successes(o: OpOutcome): nat {
    if o.Stopped? then 0 else if o.succeeded == 0 && o.failed == 0 then 1 else o.succeeded
  }

  function Failures(o: OpOutcome): nat {
    if o.Stopped? then 0 else o.failed
  }

  ghost predicate CountsUpTo(t: Tally, operation: nat -> OpOutcome, n: nat) {
    t.succeeded == Sum(operation, Successes, n) && t.failed == Sum(operation, Failures, n)
  }

  lemma TurnCounts(plan: Plan, operation: nat -> OpOutcome, i: nat, t: Tally)
    requires operation == if plan.operation == Delete then plan.deletes else plan.moves
    requires !plan.operation.Other? && t.completed == i && CountsUpTo(t, operation, i)
    ensures var (u, fault) := Turn(plan, i, t); CountsUpTo(u, operation, u.completed) && (fault.None? ==> u.completed == i + 1)
  {
    if Perform(plan, i).Finished? {
      assert CountsUpTo(Counted(Persisted(plan, t), operation(i).succeeded, operation(i).failed), operation, i + 1);
    }
  }

  lemma {:induction false} LoopCounts(plan: Plan, operation: nat -> OpOutcome, i: nat, t: Tally)
    requires operation == if plan.operation == Delete then plan.deletes else plan.moves
    requires !plan.operation.Other? && t.completed == i <= plan.total && CountsUpTo(t, operation, i)
    ensures var r := Looped(plan, i, t).0; CountsUpTo(r, operation, r.completed)
    decreases plan.total - i
  {
    if i < plan.total {
      TurnCounts(plan, operation, i, t);
      var (u, fault) := Turn(plan, i, t);
      if fault.None? {
        LoopCounts(plan, operation, i + 1, u);
      }
    }
  }

  /** What a job returns are the sums over its candidates; one with nothing done and nothing failed was gone already, and counts as a success. */
  lemma ReturnedCountersAreSums(plan: Plan, rows: Rows, operation: nat -> OpOutcome)
    requires !plan.operation.Other? && operation == if plan.operation == Delete then plan.deletes else plan.moves
    requires RunOf(plan, rows).result.Returned?
    ensures RunOf(plan, rows).result
      == Returned(plan.total, Sum(operation, Successes, plan.total), Sum(operation, Failures, plan.total))
  {
    LoopOutcome(plan, 0, Start());
    LoopCounts(plan, operation, 0, Start());
  }

  // ---- what is left of the rows ----

  /** The text summarised for the user: the candidate's own error, else the fault's, else a stock one. */
  ghost predicate IsReason(plan: Plan, rows: Rows, fallback: Option<string>, reason: string) {
    if plan.total > 0 && rows.candidate.Some? && rows.candidate.value.lastDeleteError.Some? && |rows.candidate.value.lastDeleteError.value| > 0
    then rows.candidate.value.lastDeleteError == Some(reason)
    else if fallback.Some? && |fallback.value| > 0 then fallback == Some(reason)
    else reason == "Deletion failed"
  }

  /** Finalising a request that is not executed records the summarised reason, never an empty one, and drops the first candidate. */
  lemma RecordedError(plan: Plan, rows: Rows, succeeded: nat, failed: nat, fallback: Option<string>, reason: string)
    requires rows.request.Some? && !plan.finish.Lost? && (succeeded == 0 || failed > 0) && IsReason(plan, rows, fallback, reason)
    ensures var after := Finalized(plan, rows, succeeded, failed, fallback);
      && after.request == Some(DeleteRequest(rows.request.value.executed,
                                             Some(if |plan.summarize(reason)| > 0 then plan.summarize(reason) else "Deletion failed")))
      && after.candidate == if plan.total > 0 then None else rows.candidate
  {
  }

  /** A run leaves the rows alone, or marks the request executed, or gives it an error and drops the first candidate. */
  lemma OutcomeIsAllOrNothing(plan: Plan, rows: Rows)
    ensures var after := RunOf(plan, rows).rows;
      || after == rows
      || (after == rows.(request := Some(DeleteRequest(true, None))) && plan.total > 0)
      || (&& rows.request.Some? && after.request.Some? && after.request.value.executed == rows.request.value.executed
          && after.request.value.error.Some? && after.request.value.error.value != ""
          && after.candidate == (if plan.total > 0 then None else rows.candidate))
  {
    LoopOutcome(plan, 0, Start());
    if plan.total == 0 {
      assert Looped(plan, 0, Start()) == (Start(), None);
    }
  }

  lemma PercentIsMonotone(a: nat, b: nat, total: nat)
    requires a <= b <= total && total > 0
    ensures Percent(a, total) <= Percent(b, total) <= 100
    ensures Percent(a, total) == 100 <==> a == total
  {
    var q := a * 100 / total;
    QuotientBounds(a * 100, total, q);
    QuotientBounds(b * 100, total, q);
    QuotientBounds(a * 100, total, 100);
  }

  /**
   A job that is not cancelled, and not executed either, records why: the error that ended the loop
   counts as the reason unless the candidate has one of its own.
   */
  lemma RunRecordsError(plan: Plan, rows: Rows, reason: string)
    requires plan.hasRequest && rows.request.Some? && !plan.finish.Lost?
    requires var (t, fault) := Looped(plan, 0, Start());
      && fault != Some(Cancelled) && plan.writes(t.calls) == Stored
      && (t.completed < plan.total || t.failed > 0 || t.succeeded == 0)
      && IsReason(plan, rows, if fault.Some? then Some(fault.value.message) else None, reason)
    ensures RunOf(plan, rows).rows.request == Some(DeleteRequest(rows.request.value.executed,
      Some(if |plan.summarize(reason)| > 0 then plan.summarize(reason) else "Deletion failed")))
  {
    var (t, fault) := Looped(plan, 0, Start());
    LoopOutcome(plan, 0, Start());
    var left := plan.total - t.completed;
    var failed := if fault.Some? && t.failed < left then left else t.failed;
    RecordedError(plan, rows, t.succeeded, failed, if fault.Some? then Some(fault.value.message) else None, reason);
  }

  /** A cancellation in the loop ends the job on the spot: no further write, and the rows as they were. */
  lemma CancellationEndsTheRun(plan: Plan, rows: Rows)
    requires Looped(plan, 0, Start()).1 == Some(Cancelled)
    ensures RunOf(plan, rows) == Run(Looped(plan, 0, Start()).0, rows, Raised(Cancelled))
  {
  }

  /** A percentage is rounded down, and an empty job is complete. */
  lemma PercentIsRoundedDown(completed: nat, total: nat)
    requires completed <= total
    ensures total == 0 ==> Percent(completed, total) == 100
    ensures total > 0 ==> Percent(completed, total) * total <= completed * 100 < (Percent(completed, total) + 1) * total
  {
    if total > 0 {
      PercentIsMonotone(completed, total, total);
      var q := completed * 100 / total;
      assert q * total <= completed * 100 < q * total + total;
      QuotientBounds(completed * 100, total, 101);
    }
  }

  /** A job that returns has counted every candidate, and its counters say what was recorded. */
  lemma ReturnedCountersMatchTheRequest(plan: Plan, rows: Rows)
    requires RunOf(plan, rows).result.Returned?
    ensures var run := RunOf(plan, rows);
      && run.result.processed == plan.total == run.tally.completed <= run.result.succeeded + run.result.failed
      && run.tally.shown != [] && run.tally.shown[|run.tally.shown| - 1].percent == 100
      && (plan.hasRequest && rows.request.Some? ==>
            && run.rows.request.Some?
            && (run.rows.request.value.error.None? <==> plan.total > 0 && run.result.failed == 0))
  {
    LoopOutcome(plan, 0, Start());
    if plan.total > 0 {
      PercentIsMonotone(plan.total, plan.total, plan.total);
    }
  }

  // ---- the progress shown ----

  /** Everything shown so far is in range, never goes back and does not run ahead of the counters. */
  ghost predicate Steady(plan: Plan, t: Tally) {
    && t.completed <= plan.total
    && (forall k :: 0 <= k < |t.shown| ==>
          && t.shown[k].total == plan.total && t.shown[k].completed <= t.completed && t.shown[k].failed <= t.failed
          && t.shown[k].percent == Percent(t.shown[k].completed, plan.total) <= 100)
    && (forall j, k :: 0 <= j < k < |t.shown| ==>
          t.shown[j].completed <= t.shown[k].completed && t.shown[j].failed <= t.shown[k].failed)
  }

  lemma PersistedIsSteady(plan: Plan, t: Tally)
    requires Steady(plan, t)
    ensures Steady(plan, Persisted(plan, t))
  {
  }

  lemma {:induction false} LoopIsSteady(plan: Plan, i: nat, t: Tally)
    requires t.completed == i <= plan.total && Steady(plan, t)
    ensures Steady(plan, Looped(plan, i, t).0)
    decreases plan.total - i
  {
    if i < plan.total {
      PersistedIsSteady(plan, t);
      if FaultOf(plan.writes(t.calls)).None? && Perform(plan, i).Finished? {
        var v := Counted(Persisted(plan, t), Perform(plan, i).succeeded, Perform(plan, i).failed);
        assert Steady(plan, v);
        PersistedIsSteady(plan, v);
        if FaultOf(plan.writes(v.calls)).None? {
          LoopIsSteady(plan, i + 1, Persisted(plan, v));
        }
      }
    }
  }

  ghost predicate NeverGoesBack(total: nat, shown: seq<Progress>) {
    && (forall k :: 0 <= k < |shown| ==> shown[k].percent <= 100 && (total > 0 && shown[k].percent == 100 ==> shown[k].completed == total))
    && (forall j, k :: 0 <= j < k < |shown| ==>
          shown[j].percent <= shown[k].percent && shown[j].completed <= shown[k].completed && shown[j].failed <= shown[k].failed)
  }

  lemma SteadyNeverGoesBack(plan: Plan, t: Tally)
    requires Steady(plan, t)
    ensures NeverGoesBack(plan.total, t.shown)
  {
    if plan.total > 0 {
      forall k | 0 <= k < |t.shown| && t.shown[k].percent == 100 ensures t.shown[k].completed == plan.total {
        PercentIsMonotone(t.shown[k].completed, t.shown[k].completed, plan.total);
      }
      forall j, k | 0 <= j < k < |t.shown| ensures t.shown[j].percent <= t.shown[k].percent {
        PercentIsMonotone(t.shown[j].completed, t.shown[k].completed, plan.total);
      }
    }
  }

  lemma RunEndsBehindTheLoop(plan: Plan, rows: Rows)
    ensures var t := Looped(plan, 0, Start()).0; RunOf(plan, rows).tally == t || RunOf(plan, rows).tally == Persisted(plan, t)
  {
  }

  lemma RunIsSteady(plan: Plan, rows: Rows)
    ensures Steady(plan, RunOf(plan, rows).tally)
  {
    var t := Looped(plan, 0, Start()).0;
    LoopIsSteady(plan, 0, Start());
    PersistedIsSteady(plan, t);
    RunEndsBehindTheLoop(plan, rows);
  }

  /** The percentages shown never decrease, and for a non-empty job 100 is shown only with all items completed. */
  lemma ProgressNeverGoesBack(plan: Plan, rows: Rows)
    ensures NeverGoesBack(plan.total, RunOf(plan, rows).tally.shown)
  {
    RunIsSteady(plan, rows);
    SteadyNeverGoesBack(plan, RunOf(plan, rows).tally);
  }
}
