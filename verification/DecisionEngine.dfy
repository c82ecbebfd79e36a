/**
 The state shown for a media item, and how it agrees with the auto-delete deadline.

 Explanations, labels and badges are left out; the state, the remaining seconds and the progress
 are computed exactly (in integers) from the same signals.
 */
module DecisionEngine {
  import opened Common
  import opened AutoDelete
  import opened Quotients

  datatype State =
    | AttentionRequired | Protected | Waiting | SafeToDelete | Incomplete | Unwatched | Watching

  datatype Signals = Signals(
    isProtected: bool, hasPendingDeleteRequest: bool, hasPendingRequest: bool, isCandidate: bool,
    candidateCreatedAt: Option<Timestamp>, candidateEligibleAt: Option<Timestamp>, candidateDelayDays: Option<int>,
    childCandidateCount: int, sizeBytes: Option<int>, viewCount: int, lastViewedAt: Option<Timestamp>)

  datatype Decision = Decision(state: State, remainingSeconds: Option<int>, progressPercent: Option<int>)

  /** Whole seconds in a time span, truncated towards zero as Python's `int` does. */
  function WholeSeconds(microseconds: int): int {
    if microseconds >= 0 then microseconds / MICROSECONDS_PER_SECOND
    else -((-microseconds) / MICROSECONDS_PER_SECOND)
  }

  function Max(a: int, b: int): int {
    if a > b then a else b
  }

  function ClampProgress(p: Option<int>): Option<int> {
    match p
    case None => None
    case Some(v) => Some(Max(0, if v < 100 then v else 100))
  }

  /** Progress through the delay, when creation time and a non-zero delay are both known. */
  function RawProgress(s: Signals, current: int): Option<int> {
    if s.candidateCreatedAt.Some? && s.candidateDelayDays.Some? && s.candidateDelayDays.value != 0 then
      var total := Max(s.candidateDelayDays.value * SECONDS_PER_DAY, 1);
      var elapsed := WholeSeconds(Max(0, current - AsUtc(s.candidateCreatedAt.value)));
      Some(elapsed * 100 / total)
    else None
  }

  ghost function DecisionFor(s: Signals, current: int): Decision {
    if s.isProtected then Decision(Protected, None, None)
    else if s.hasPendingDeleteRequest || s.hasPendingRequest then Decision(Waiting, None, None)
    else if s.isCandidate then
      if s.candidateEligibleAt.Some? && AsUtc(s.candidateEligibleAt.value) > current then
        Decision(Waiting, Some(WholeSeconds(AsUtc(s.candidateEligibleAt.value) - current)),
                 ClampProgress(RawProgress(s, current)))
      else Decision(SafeToDelete, None, None)
    else if s.childCandidateCount > 0 then Decision(SafeToDelete, None, None)
    else Decision(StateWithoutCandidate(s, current), None, None)
  }

  ghost function StateWithoutCandidate(s: Signals, current: int): State {
    if s.sizeBytes.None? then Incomplete
    else if s.lastViewedAt.Some? then
      if WholeSeconds(current - AsUtc(s.lastViewedAt.value)) <= 14 * SECONDS_PER_DAY then Watching
      else AttentionRequired
    else if s.viewCount <= 0 then Unwatched
    else AttentionRequired
  }

  /** The decision, reassigned branch by branch. */
  method Evaluate(s: Signals, now: Timestamp) returns (d: Decision)
    ensures d == DecisionFor(s, AsUtc(now))
  {
    var current := AsUtc(now);
    var state := AttentionRequired;
    var remaining: Option<int> := None;
    var progress: Option<int> := None;
    if s.isProtected {
      state := Protected;
    } else if s.hasPendingDeleteRequest {
      state := Waiting;
    } else if s.hasPendingRequest {
      state := Waiting;
    } else if s.isCandidate {
      if s.candidateEligibleAt.Some? && AsUtc(s.candidateEligibleAt.value) > current {
        state := Waiting;
        remaining := Some(WholeSeconds(AsUtc(s.candidateEligibleAt.value) - current));
        progress := RawProgress(s, current);
      } else {
        state := SafeToDelete;
      }
    } else if s.childCandidateCount > 0 {
      state := SafeToDelete;
    } else if s.sizeBytes.None? {
      state := Incomplete;
    } else if s.viewCount <= 0 && s.lastViewedAt.None? {
      state := Unwatched;
    } else if s.lastViewedAt.Some? {
      var sinceWatch := WholeSeconds(current - AsUtc(s.lastViewedAt.value));
      if sinceWatch <= 14 * SECONDS_PER_DAY {
        state := Watching;
      }
    }
    d := Decision(state, remaining, ClampProgress(progress));
  }

  // ---- which state is shown ----

  /** Nothing that takes precedence over being a candidate or not. */
  ghost predicate IsFree(s: Signals) {
    !s.isProtected && !s.hasPendingDeleteRequest && !s.hasPendingRequest
  }

  /** The stored moment lies in the future. */
  ghost predicate IsAhead(t: Option<Timestamp>, current: int) {
    t.Some? && (if t.value.Aware? then t.value.wall - t.value.offset else t.value.wall) > current
  }

  /** The last viewing was no more than fourteen days ago, in whole seconds. */
  ghost predicate IsRecent(t: Timestamp, current: int) {
    current - (if t.Aware? then t.wall - t.offset else t.wall) < 1_209_601_000_000
  }

  /**
   Protection comes first, then a pending request. A candidate waits exactly while its deadline lies
   ahead and is safe to delete otherwise, as is an item with candidates below it. The rest is told
   apart by its size and its views.
   */
  lemma StateIff(s: Signals, current: int)
    ensures var state := DecisionFor(s, current).state;
      && (state == Protected <==> s.isProtected)
      && (state == Waiting <==>
            !s.isProtected && (!IsFree(s) || (s.isCandidate && IsAhead(s.candidateEligibleAt, current))))
      && (state == SafeToDelete <==>
            IsFree(s) && if s.isCandidate then !IsAhead(s.candidateEligibleAt, current) else s.childCandidateCount > 0)
      && (IsFree(s) && !s.isCandidate && s.childCandidateCount <= 0 ==>
            && (state == Incomplete <==> s.sizeBytes == None)
            && (state == Watching <==> s.sizeBytes != None && s.lastViewedAt != None && IsRecent(s.lastViewedAt.value, current))
            && (state == Unwatched <==> s.sizeBytes != None && s.lastViewedAt == None && s.viewCount <= 0)
            && (state == AttentionRequired <==>
                  s.sizeBytes != None && (if s.lastViewedAt == None then s.viewCount > 0 else !IsRecent(s.lastViewedAt.value, current))))
  {
  }

  /** Seconds are shown exactly while a candidate waits for its deadline, rounded down; progress needs a creation time and a delay. */
  lemma RemainingIff(s: Signals, current: int)
    ensures var d := DecisionFor(s, current);
      var counting := IsFree(s) && s.isCandidate && IsAhead(s.candidateEligibleAt, current);
      && (d.remainingSeconds != None <==> counting)
      && (d.progressPercent != None <==>
            counting && s.candidateCreatedAt != None && s.candidateDelayDays != None && s.candidateDelayDays != Some(0))
      && (counting ==>
            var left := (if s.candidateEligibleAt.value.Aware? then s.candidateEligibleAt.value.wall - s.candidateEligibleAt.value.offset
                         else s.candidateEligibleAt.value.wall) - current;
            d.remainingSeconds.value * 1_000_000 <= left < (d.remainingSeconds.value + 1) * 1_000_000)
  {
  }

  /**
   Progress is the share of the delay that has gone by, in percent rounded down: 0 before the creation
   time, 100 when the delay is over.
   */
  lemma ProgressIff(s: Signals, current: int, seconds: nat)
    requires IsFree(s) && s.isCandidate && IsAhead(s.candidateEligibleAt, current)
    requires s.candidateCreatedAt.Some? && s.candidateDelayDays.Some? && s.candidateDelayDays.value > 0
    requires var gone := current - AsUtc(s.candidateCreatedAt.value);
      if gone < 0 then seconds == 0 else seconds * 1_000_000 <= gone < (seconds + 1) * 1_000_000
    ensures var total := s.candidateDelayDays.value * 86_400;
      var progress := DecisionFor(s, current).progressPercent;
      && progress.Some?
      && (seconds >= total ==> progress.value == 100)
      && (seconds < total ==> 0 <= progress.value && progress.value * total <= 100 * seconds < (progress.value + 1) * total)
  {
    var total := s.candidateDelayDays.value * SECONDS_PER_DAY;
    assert WholeSeconds(Max(0, current - AsUtc(s.candidateCreatedAt.value))) == seconds;
    if seconds >= total {
      QuotientBounds(seconds * 100, total, 100);
    } else {
      PercentBelowHundred(seconds, total);
    }
  }

  /** A candidate nobody protects or has asked about, carrying what the policy resolved for it. */
  ghost predicate CarriesPolicy(s: Signals, policy: AutoDeletePolicy, created: int) {
    && !s.isProtected && !s.hasPendingDeleteRequest && !s.hasPendingRequest && s.isCandidate
    && s.candidateCreatedAt.Some? && AsUtc(s.candidateCreatedAt.value) == created
    && s.candidateEligibleAt.Some? && AsUtc(s.candidateEligibleAt.value) == policy.eligibleAt
    && s.candidateDelayDays == Some(policy.delayDays)
  }

  /** The card says "safe to delete" exactly when auto-deletion would act. */
  lemma DecisionAgreesWithPolicy(ruleIds: seq<int>, actions: map<int, Option<Setting>>, globalDays: int,
                                 created: int, now: int, s: Signals)
    requires CarriesPolicy(s, Policy(ruleIds, actions, globalDays, created, now), created)
    ensures DecisionFor(s, now).state == SafeToDelete
      <==> Policy(ruleIds, actions, globalDays, created, now).isEligible
    ensures DecisionFor(s, now).state != SafeToDelete ==> DecisionFor(s, now).state == Waiting
  {
  }

  /**
   Once safe, always safe: with the same rules and settings, a policy resolved later and a decision
   taken later still say so.
   */
  lemma SafeNeverReverts(ruleIds: seq<int>, actions: map<int, Option<Setting>>, globalDays: int,
                         created: int, now: int, later: int, s: Signals, s': Signals)
    requires now <= later
    requires CarriesPolicy(s, Policy(ruleIds, actions, globalDays, created, now), created)
    requires CarriesPolicy(s', Policy(ruleIds, actions, globalDays, created, later), created)
    requires DecisionFor(s, now).state == SafeToDelete
    ensures DecisionFor(s', later).state == SafeToDelete
    ensures Policy(ruleIds, actions, globalDays, created, later).isEligible
  {
    DecisionAgreesWithPolicy(ruleIds, actions, globalDays, created, now, s);
    DecisionAgreesWithPolicy(ruleIds, actions, globalDays, created, later, s');
  }

  /** Whole seconds of the two parts of a whole number of seconds add up to it, or to one less. */
  lemma TruncatedPartsOfWhole(a: int, b: int, total: int)
    requires a >= 0 && b >= 0 && a + b == total * MICROSECONDS_PER_SECOND
    ensures WholeSeconds(a) + WholeSeconds(b) == total || WholeSeconds(a) + WholeSeconds(b) == total - 1
  {
  }

  /**
   While it waits: the seconds gone by and the seconds still shown account for the whole delay, up
   to the one second lost to truncation, and the progress bar has not reached 100.
   */
  lemma WaitingAccountsForTheDelay(ruleIds: seq<int>, actions: map<int, Option<Setting>>, globalDays: int,
                                   created: int, now: int, s: Signals)
    requires CarriesPolicy(s, Policy(ruleIds, actions, globalDays, created, now), created)
    requires created <= now
    requires DecisionFor(s, now).state == Waiting
    ensures var delaySeconds := Policy(ruleIds, actions, globalDays, created, now).delayDays * SECONDS_PER_DAY;
      var d := DecisionFor(s, now);
      && delaySeconds > 0 && d.remainingSeconds.Some? && d.progressPercent.Some?
      && delaySeconds - 1 <= WholeSeconds(now - created) + d.remainingSeconds.value <= delaySeconds
      && 0 <= d.progressPercent.value <= 99
      && d.progressPercent.value * delaySeconds <= 100 * WholeSeconds(now - created)
      && 100 * WholeSeconds(now - created) < (d.progressPercent.value + 1) * delaySeconds
  {
    var policy := Policy(ruleIds, actions, globalDays, created, now);
    DelayIsInRange(ruleIds, actions, globalDays);
    var total := policy.delayDays * SECONDS_PER_DAY;
    TruncatedPartsOfWhole(now - created, policy.eligibleAt - now, total);
    var elapsed := WholeSeconds(now - created);
    assert 0 <= elapsed < total;
    PercentBelowHundred(elapsed, total);
  }

  lemma PercentBelowHundred(elapsed: int, total: int)
    requires 0 <= elapsed < total
    ensures var p := elapsed * 100 / total;
      0 <= p <= 99 && p * total <= 100 * elapsed < (p + 1) * total
  {
    var p := elapsed * 100 / total;
    QuotientBounds(elapsed * 100, total, 100);
    QuotientBounds(elapsed * 100, total, p);
    QuotientBounds(elapsed * 100, total, p + 1);
  }
}
