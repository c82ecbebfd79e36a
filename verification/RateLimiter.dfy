/**
 The sliding-window limiter in front of the TMDB client.

 Clock readings are exact reals. The environment supplies two of them per call: the reading taken
 on entry (`now`) and the one recorded for the request (`later`).
 */
module RateLimiter {

  const MAX_REQUESTS_PER_SECOND: nat := 50
  const DEQUE_CAPACITY: nat := 50

  /** What is left of the deque once everything at least one second old has been popped. */
  function DropExpired(queue: seq<real>, now: real): seq<real> {
    if queue != [] && now - queue[0] >= 1.0 then DropExpired(queue[1..], now) else queue
  }

  /** How long a call made at `now` asks to sleep; zero when it does not sleep. */
  function SleepTime(queue: seq<real>, now: real): real {
    var live := DropExpired(queue, now);
    if |live| >= MAX_REQUESTS_PER_SECOND && 1.0 - (now - live[0]) > 0.0
    then 1.0 - (now - live[0]) else 0.0
  }

  /** A bounded deque drops its oldest entry when it is appended to while full. */
  function AppendBounded(queue: seq<real>, t: real): seq<real> {
    if |queue| >= DEQUE_CAPACITY then queue[1..] + [t] else queue + [t]
  }

  /** The deque just before the request is recorded. */
  function BeforeAppend(queue: seq<real>, now: real): seq<real> {
    var live := DropExpired(queue, now);
    if SleepTime(queue, now) > 0.0 then live[1..] else live
  }

  /** One call: it is granted at `later`, or it is cancelled at `later` while it sleeps. */
  datatype Call = Call(now: real, later: real, cancelled: bool)

  /** The deque, every grant so far, and the last clock reading. */
  datatype Limiter = Limiter(queue: seq<real>, history: seq<real>, clock: real)

  /** The clock does not run backwards and a sleep lasts at least as long as it was asked to. */
  ghost predicate Admissible(s: Limiter, c: Call) {
    && s.clock <= c.now <= c.later
    && (c.cancelled ==> SleepTime(s.queue, c.now) > 0.0)
    && (!c.cancelled ==> c.now + SleepTime(s.queue, c.now) <= c.later)
  }

  ghost function After(s: Limiter, c: Call): Limiter {
    if c.cancelled then Limiter(DropExpired(s.queue, c.now), s.history, c.later)
    else Limiter(AppendBounded(BeforeAppend(s.queue, c.now), c.later), s.history + [c.later], c.later)
  }

  /** A run from the freshly loaded module; the calls are serialised by the class-level lock. */
  ghost function RunOf(start: real, calls: seq<Call>): Limiter {
    if calls == [] then Limiter([], [], start)
    else After(RunOf(start, calls[..|calls| - 1]), calls[|calls| - 1])
  }

  ghost predicate AdmissibleRun(start: real, calls: seq<Call>) {
    calls != [] ==>
      && AdmissibleRun(start, calls[..|calls| - 1])
      && Admissible(RunOf(start, calls[..|calls| - 1]), calls[|calls| - 1])
  }

  ghost predicate Sorted(h: seq<real>) {
    forall i, j :: 0 <= i < j < |h| ==> h[i] <= h[j]
  }

  /** Grants fifty apart are at least a second apart. */
  ghost predicate Spaced(h: seq<real>) {
    forall i, j :: 0 <= i && i + MAX_REQUESTS_PER_SECOND <= j < |h| ==> h[j] - h[i] >= 1.0
  }

  /** The deque is a suffix of the grants, and whatever it has forgotten is at least a second old. */
  ghost predicate Consistent(s: Limiter) {
    && |s.queue| <= DEQUE_CAPACITY
    && |s.queue| <= |s.history|
    && s.queue == s.history[|s.history| - |s.queue|..]
    && Sorted(s.history)
    && (forall i :: 0 <= i < |s.history| ==> s.history[i] <= s.clock)
    && (forall i :: 0 <= i < |s.history| - |s.queue| ==> s.clock - s.history[i] >= 1.0)
    && Spaced(s.history)
  }

  /** Purging keeps a suffix, and everything purged is at least a second old. */
  lemma {:induction false} DropExpiredIsSuffix(q: seq<real>, now: real)
    ensures var live := DropExpired(q, now);
      && |live| <= |q| && live == q[|q| - |live|..]
      && (forall i :: 0 <= i < |q| - |live| ==> now - q[i] >= 1.0)
      && (live != [] ==> now - live[0] < 1.0)
  {
    if q != [] && now - q[0] >= 1.0 {
      DropExpiredIsSuffix(q[1..], now);
      var live := DropExpired(q[1..], now);
      assert q[|q| - |live|..] == q[1..][|q[1..]| - |live|..];
      forall i | 0 <= i < |q| - |live| ensures now - q[i] >= 1.0 {
        if i > 0 { assert q[i] == q[1..][i - 1]; }
      }
    }
  }

  /** The append in a call never finds a full deque, so `maxlen` never evicts an entry silently. */
  lemma NeverEvictsSilently(s: Limiter, now: real)
    requires Consistent(s)
    ensures |BeforeAppend(s.queue, now)| < DEQUE_CAPACITY
    ensures SleepTime(s.queue, now) > 0.0 <==> |DropExpired(s.queue, now)| == MAX_REQUESTS_PER_SECOND
  {
    DropExpiredIsSuffix(s.queue, now);
  }

  lemma LiveOnesAreRecent(s: Limiter, now: real, i: nat)
    requires Consistent(s) && s.clock <= now && i < |s.history|
    ensures i < |s.history| - |DropExpired(s.queue, now)| <==> now - s.history[i] >= 1.0
  {
    DropExpiredIsSuffix(s.queue, now);
    var live := DropExpired(s.queue, now);
    var first := |s.history| - |live|;
    var known := |s.history| - |s.queue|;
    assert live == s.history[first..];
    if known <= i < first {
      assert s.history[i] == s.queue[i - known];
    }
    if first <= i {
      assert s.history[first] == live[0] && s.history[first] <= s.history[i];
    }
  }

  lemma LiveIsSuffix(s: Limiter, now: real)
    requires Consistent(s)
    ensures var n, live := |s.history|, DropExpired(s.queue, now);
      |live| <= n && live == s.history[n - |live|..]
  {
    DropExpiredIsSuffix(s.queue, now);
  }

  /** Fifty grants are still counted exactly when the fiftieth latest is less than a second old. */
  lemma FullIff(s: Limiter, now: real)
    requires Consistent(s) && s.clock <= now
    ensures var n := |s.history|;
      |DropExpired(s.queue, now)| >= 50 <==> n >= 50 && now - s.history[n - 50] < 1.0
  {
    LiveIsSuffix(s, now);
    if |s.history| >= 50 {
      LiveOnesAreRecent(s, now, |s.history| - 50);
    }
  }

  /** A call sleeps exactly when the fiftieth latest grant is less than a second old, and just until it is a second old. */
  lemma SleepsExactlyWhenNeeded(s: Limiter, now: real)
    requires Consistent(s) && s.clock <= now
    ensures var n := |s.history|;
      if n >= 50 && now - s.history[n - 50] < 1.0 then now + SleepTime(s.queue, now) == s.history[n - 50] + 1.0
      else SleepTime(s.queue, now) == 0.0
  {
    FullIff(s, now);
    LiveIsSuffix(s, now);
    NeverEvictsSilently(s, now);
    var n, live := |s.history|, DropExpired(s.queue, now);
    if |live| >= 50 {
      assert live[0] == s.history[n - 50];
    }
  }

  /** Purging with a later clock reading keeps the invariant. */
  lemma PurgeKeepsConsistent(s: Limiter, now: real, later: real)
    requires Consistent(s) && s.clock <= now <= later
    ensures Consistent(Limiter(DropExpired(s.queue, now), s.history, later))
  {
    DropExpiredIsSuffix(s.queue, now);
    var live := DropExpired(s.queue, now);
    var h := s.history;
    forall i | 0 <= i < |h| - |live| ensures later - h[i] >= 1.0 {
      if i >= |h| - |s.queue| {
        assert h[i] == s.queue[i - (|h| - |s.queue|)];
      }
    }
  }

  /** Recording a request on a deque with room, when all that is forgotten is a second old. */
  lemma RecordKeepsConsistent(h: seq<real>, kept: seq<real>, later: real)
    requires |kept| < DEQUE_CAPACITY && ForgetsOnlyOld(h, kept, later)
    requires Sorted(h) && Spaced(h)
    requires forall i :: 0 <= i < |h| ==> h[i] <= later
    ensures Consistent(Limiter(kept + [later], h + [later], later))
  {
    var h' := h + [later];
    assert kept + [later] == h'[|h'| - |kept| - 1..];
    assert Sorted(h');
    forall i, j | 0 <= i && i + MAX_REQUESTS_PER_SECOND <= j < |h'| ensures h'[j] - h'[i] >= 1.0 {
      if j == |h| {
        assert h'[i] == h[i];
      } else {
        assert h'[i] == h[i] && h'[j] == h[j];
      }
    }
  }

  /** Everything a suffix of the grants leaves out is at least a second old at `later`. */
  ghost predicate ForgetsOnlyOld(h: seq<real>, kept: seq<real>, later: real) {
    && |kept| <= |h| && kept == h[|h| - |kept|..]
    && (forall i :: 0 <= i < |h| - |kept| ==> later - h[i] >= 1.0)
  }

  lemma DropOneMore(h: seq<real>, live: seq<real>, later: real)
    requires ForgetsOnlyOld(h, live, later) && live != [] && later - live[0] >= 1.0
    ensures ForgetsOnlyOld(h, live[1..], later)
  {
    assert live[0] == h[|h| - |live|];
    assert live[1..] == h[|h| - |live| + 1..];
  }

  /** What a granted call has forgotten before it records itself is a second old by then. */
  lemma ForgottenIsASecondOld(s: Limiter, c: Call)
    requires Consistent(s) && Admissible(s, c) && !c.cancelled
    ensures |BeforeAppend(s.queue, c.now)| < DEQUE_CAPACITY
    ensures ForgetsOnlyOld(s.history, BeforeAppend(s.queue, c.now), c.later)
  {
    var live := DropExpired(s.queue, c.now);
    NeverEvictsSilently(s, c.now);
    assert ForgetsOnlyOld(s.history, live, c.later) by {
      PurgeKeepsConsistent(s, c.now, c.later);
    }
    if SleepTime(s.queue, c.now) > 0.0 {
      DropOneMore(s.history, live, c.later);
    }
  }

  /** Every call keeps the deque, the history and their spacing in step. */
  lemma CallKeepsConsistent(s: Limiter, c: Call)
    requires Consistent(s) && Admissible(s, c)
    ensures Consistent(After(s, c))
  {
    if c.cancelled {
      PurgeKeepsConsistent(s, c.now, c.later);
    } else {
      ForgottenIsASecondOld(s, c);
      RecordKeepsConsistent(s.history, BeforeAppend(s.queue, c.now), c.later);
    }
  }

  lemma {:induction false} RunIsConsistent(start: real, calls: seq<Call>)
    requires AdmissibleRun(start, calls)
    ensures Consistent(RunOf(start, calls))
  {
    if calls != [] {
      RunIsConsistent(start, calls[..|calls| - 1]);
      CallKeepsConsistent(RunOf(start, calls[..|calls| - 1]), calls[|calls| - 1]);
    }
  }

  /** Indices of the grants in the half-open second that starts at `from`. */
  ghost function GrantsInSecond(h: seq<real>, from: real): set<nat> {
    set i: nat | i < |h| && from <= h[i] < from + 1.0
  }

  lemma {:induction false} RangeBound(s: set<nat>, lo: nat, hi: nat)
    requires forall i :: i in s ==> lo <= i < hi
    ensures |s| <= if lo <= hi then hi - lo else 0
    decreases hi
  {
    if lo >= hi {
      assert s == {};
    } else {
      var rest := s - {hi - 1};
      RangeBound(rest, lo, hi - 1);
      assert s <= rest + {hi - 1};
    }
  }

  /** Grants fifty apart never share a half-open second, so such a second holds at most fifty. */
  lemma SpacedMeansAtMostFiftyPerSecond(h: seq<real>, from: real)
    requires Spaced(h)
    ensures |GrantsInSecond(h, from)| <= MAX_REQUESTS_PER_SECOND
  {
    var grants := GrantsInSecond(h, from);
    if grants != {} {
      var lo := Least(grants);
      forall i | i in grants ensures lo <= i < lo + MAX_REQUESTS_PER_SECOND {
        assert h[i] - h[lo] < 1.0;
      }
      RangeBound(grants, lo, lo + MAX_REQUESTS_PER_SECOND);
    }
  }

  ghost function Least(s: set<nat>): (m: nat)
    requires s != {}
    ensures m in s && forall i :: i in s ==> m <= i
  {
    var x :| x in s;
    if s == {x} then x
    else
      var m := Least(s - {x});
      assert forall i :: i in s ==> i == x || i in s - {x};
      if x < m then x else m
  }

  /**
   The limit itself, over every run of any length: the (n+50)th grant comes at least a second after
   the nth, and no half-open second holds more than fifty grants.
   */
  lemma RateBound(start: real, calls: seq<Call>)
    requires AdmissibleRun(start, calls)
    ensures Spaced(RunOf(start, calls).history)
    ensures forall from: real :: |GrantsInSecond(RunOf(start, calls).history, from)| <= 50
  {
    RunIsConsistent(start, calls);
    forall from: real ensures |GrantsInSecond(RunOf(start, calls).history, from)| <= MAX_REQUESTS_PER_SECOND {
      SpacedMeansAtMostFiftyPerSecond(RunOf(start, calls).history, from);
    }
  }

  /** The class-level state of the client. The history and the clock exist for the proof only. */
  class AsyncTMDBClient {
    var requestTimestamps: seq<real>
    ghost var history: seq<real>
    ghost var clock: real

    ghost function State(): Limiter
      reads this
    {
      Limiter(requestTimestamps, history, clock)
    }

    ghost predicate Valid()
      reads this
    {
      Consistent(State())
    }

    constructor (ghost start: real)
      ensures Valid() && State() == RunOf(start, [])
    {
      requestTimestamps := [];
      history := [];
      clock := start;
    }

    /** One passage through the lock; a cancelled call leaves without a grant. */
    method WaitForRateLimit(now: real, later: real, cancelled: bool)
      requires Valid() && Admissible(State(), Call(now, later, cancelled))
      modifies this
      ensures Valid() && State() == After(old(State()), Call(now, later, cancelled))
    {
      CallKeepsConsistent(State(), Call(now, later, cancelled));
      NeverEvictsSilently(State(), now);
      ghost var before := requestTimestamps;
      while requestTimestamps != [] && now - requestTimestamps[0] >= 1.0
        invariant DropExpired(requestTimestamps, now) == DropExpired(before, now)
        invariant history == old(history)
        decreases |requestTimestamps|
      {
        requestTimestamps := requestTimestamps[1..];
      }
      assert requestTimestamps == DropExpired(before, now);
      if |requestTimestamps| >= MAX_REQUESTS_PER_SECOND {
        var sleepTime := 1.0 - (now - requestTimestamps[0]);
        if sleepTime > 0.0 {
          if cancelled {
            clock := later;
            return;
          }
          requestTimestamps := requestTimestamps[1..];
        }
      }
      requestTimestamps := AppendBounded(requestTimestamps, later);
      history := history + [later];
      clock := later;
    }
  }
}
