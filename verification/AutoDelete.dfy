/**
 The auto-delete deadline of a candidate: the longest delay any matching rule asks for.

 Points in time are microseconds. A timestamp without a zone is read as UTC.
 */
module AutoDelete {
  import opened Common

  const MAX_AUTO_DELETE_DELAY_DAYS: int := 3650
  const MICROSECONDS_PER_SECOND: int := 1_000_000
  const SECONDS_PER_DAY: int := 86400
  const MICROSECONDS_PER_DAY: int := 86_400_000_000

  /** Wall-clock microseconds, with the offset from UTC when the timestamp carries one. */
  datatype Timestamp = Naive(wall: int) | Aware(wall: int, offset: int)

  function AsUtc(t: Timestamp): int {
    match t
    case Naive(wall) => wall
    case Aware(wall, offset) => wall - offset
  }

  /** What a rule's action holds under "auto_delete_delay_days". */
  datatype Setting = Missing | Boolean(b: bool) | Whole(n: int) | Other

  datatype MediaType = Movie | Series

  datatype AutoDeletePolicy = AutoDeletePolicy(delayDays: int, eligibleAt: int, isEligible: bool)

  function ValidOverride(s: Setting): Option<int> {
    match s
    case Whole(n) => if n < 0 || n > MAX_AUTO_DELETE_DELAY_DAYS then None else Some(n)
    case _ => None
  }

  function Clamp(days: int): int {
    var low := if days < 0 then 0 else days;
    if low > MAX_AUTO_DELETE_DELAY_DAYS then MAX_AUTO_DELETE_DELAY_DAYS else low
  }

  /** The delay one matching rule asks for; an unknown rule or a rule without action inherits. */
  function RuleDelay(ruleId: int, actions: map<int, Option<Setting>>, globalDelay: int): int {
    var override :=
      if ruleId in actions && actions[ruleId].Some? then ValidOverride(actions[ruleId].value) else None;
    if override.Some? then override.value else globalDelay
  }

  /** The longest delay among the matching rules; the global one when there is none. */
  ghost function LongestDelay(ruleIds: seq<int>, actions: map<int, Option<Setting>>, globalDelay: int): int {
    if ruleIds == [] then globalDelay
    else
      var last := RuleDelay(ruleIds[|ruleIds| - 1], actions, globalDelay);
      if |ruleIds| == 1 then last
      else
        var rest := LongestDelay(ruleIds[..|ruleIds| - 1], actions, globalDelay);
        if last > rest then last else rest
  }

  ghost function Policy(ruleIds: seq<int>, actions: map<int, Option<Setting>>, globalDays: int,
                        created: int, now: int): AutoDeletePolicy
  {
    var days := LongestDelay(ruleIds, actions, Clamp(globalDays));
    var eligibleAt := created + days * MICROSECONDS_PER_DAY;
    AutoDeletePolicy(days, eligibleAt, now >= eligibleAt)
  }

  method ResolveAutoDeletePolicy(mediaType: MediaType, matchedRuleIds: seq<int>, createdAt: Timestamp,
                                 actions: map<int, Option<Setting>>, movieDelayDays: int, seriesDelayDays: int,
                                 now: Timestamp)
    returns (policy: AutoDeletePolicy)
    ensures policy == Policy(matchedRuleIds, actions,
                             if mediaType == Movie then movieDelayDays else seriesDelayDays,
                             AsUtc(createdAt), AsUtc(now))
  {
    var globalDelay := Clamp(if mediaType == Movie then movieDelayDays else seriesDelayDays);
    var matchedDelays: seq<int> := [];
    for i := 0 to |matchedRuleIds|
      invariant |matchedDelays| == i
      invariant forall j :: 0 <= j < i ==> matchedDelays[j] == RuleDelay(matchedRuleIds[j], actions, globalDelay)
    {
      matchedDelays := matchedDelays + [RuleDelay(matchedRuleIds[i], actions, globalDelay)];
    }
    var delayDays := globalDelay;
    for i := 0 to |matchedDelays|
      invariant delayDays == LongestDelay(matchedRuleIds[..i], actions, globalDelay)
    {
      assert matchedRuleIds[..i + 1][..i] == matchedRuleIds[..i];
      if i == 0 || matchedDelays[i] > delayDays {
        delayDays := matchedDelays[i];
      }
    }
    assert matchedRuleIds[..|matchedDelays|] == matchedRuleIds;
    var eligibleAt := AsUtc(createdAt) + delayDays * MICROSECONDS_PER_DAY;
    policy := AutoDeletePolicy(delayDays, eligibleAt, AsUtc(now) >= eligibleAt);
  }

  /** The clamp keeps what lies in 0..3650 days and moves the rest to the nearer end. */
  lemma ClampIff(days: int)
    ensures 0 <= Clamp(days) <= 3650
    ensures 0 <= days <= 3650 ==> Clamp(days) == days
    ensures days < 0 ==> Clamp(days) == 0
    ensures days > 3650 ==> Clamp(days) == 3650
  {
  }

  /** A rule asks for its own delay exactly when its action holds a whole number of 0..3650 days; every other rule inherits. */
  lemma RuleDelayIff(ruleId: int, actions: map<int, Option<Setting>>, globalDelay: int)
    ensures forall n :: ruleId in actions && actions[ruleId] == Some(Whole(n)) && 0 <= n <= 3650 ==>
      RuleDelay(ruleId, actions, globalDelay) == n
    ensures (forall n :: ruleId in actions && actions[ruleId] == Some(Whole(n)) ==> n < 0 || n > 3650) ==>
      RuleDelay(ruleId, actions, globalDelay) == globalDelay
  {
    if ruleId in actions && actions[ruleId].Some? && actions[ruleId].value.Whole? {
      assert actions[ruleId] == Some(Whole(actions[ruleId].value.n));
    }
  }

  /** The deadline is the creation time plus the delay in days, and eligible is whoever has reached it. */
  lemma DeadlineIff(ruleIds: seq<int>, actions: map<int, Option<Setting>>, globalDays: int, created: int, now: int)
    ensures var policy := Policy(ruleIds, actions, globalDays, created, now);
      && (ruleIds == [] && 0 <= globalDays <= 3650 ==> policy.delayDays == globalDays)
      && policy.eligibleAt - created == policy.delayDays * 86_400_000_000
      && (policy.isEligible <==> created + policy.delayDays * 86_400_000_000 <= now)
  {
  }

  /** The chosen delay is asked for by some matching rule and by none exceeded. */
  lemma {:induction false} LongestDelayIsMaximum(ruleIds: seq<int>, actions: map<int, Option<Setting>>, globalDelay: int)
    ensures ruleIds == [] ==> LongestDelay(ruleIds, actions, globalDelay) == globalDelay
    ensures ruleIds != [] ==>
      exists i :: 0 <= i < |ruleIds| && LongestDelay(ruleIds, actions, globalDelay) == RuleDelay(ruleIds[i], actions, globalDelay)
    ensures forall i :: 0 <= i < |ruleIds| ==>
      RuleDelay(ruleIds[i], actions, globalDelay) <= LongestDelay(ruleIds, actions, globalDelay)
  {
    if |ruleIds| == 1 {
      assert LongestDelay(ruleIds, actions, globalDelay) == RuleDelay(ruleIds[0], actions, globalDelay);
    } else if |ruleIds| > 1 {
      var front := ruleIds[..|ruleIds| - 1];
      LongestDelayIsMaximum(front, actions, globalDelay);
      assert forall i :: 0 <= i < |front| ==> front[i] == ruleIds[i];
      var i :| 0 <= i < |front| && LongestDelay(front, actions, globalDelay) == RuleDelay(front[i], actions, globalDelay);
      var k := if LongestDelay(front, actions, globalDelay) == LongestDelay(ruleIds, actions, globalDelay)
               then i else |ruleIds| - 1;
      assert LongestDelay(ruleIds, actions, globalDelay) == RuleDelay(ruleIds[k], actions, globalDelay);
    }
  }

  /** A delay never leaves the permitted range. */
  lemma DelayIsInRange(ruleIds: seq<int>, actions: map<int, Option<Setting>>, globalDays: int)
    ensures 0 <= LongestDelay(ruleIds, actions, Clamp(globalDays)) <= 3650
  {
    LongestDelayIsMaximum(ruleIds, actions, Clamp(globalDays));
  }

  /** Only the rules that match count, not their order, and more of them never shorten the delay. */
  lemma MoreRulesNeverShorten(fewer: seq<int>, more: seq<int>, actions: map<int, Option<Setting>>, globalDelay: int)
    requires fewer != []
    requires forall id :: id in fewer ==> id in more
    ensures LongestDelay(fewer, actions, globalDelay) <= LongestDelay(more, actions, globalDelay)
  {
    LongestDelayIsMaximum(fewer, actions, globalDelay);
    LongestDelayIsMaximum(more, actions, globalDelay);
    var i :| 0 <= i < |fewer| && LongestDelay(fewer, actions, globalDelay) == RuleDelay(fewer[i], actions, globalDelay);
    assert fewer[i] in fewer;
    var j :| 0 <= j < |more| && more[j] == fewer[i];
  }

  /**
   Exactly when adding one rule brings the deadline forward: nothing matched before, and the new
   rule's own delay undercuts the clamped global delay.
   */
  lemma AddingRuleMovesDeadlineEarlierIff(ruleIds: seq<int>, newRule: int, actions: map<int, Option<Setting>>,
                                          globalDays: int, created: int, now: int)
    ensures
      Policy(ruleIds + [newRule], actions, globalDays, created, now).eligibleAt
        < Policy(ruleIds, actions, globalDays, created, now).eligibleAt
      <==> ruleIds == [] && RuleDelay(newRule, actions, Clamp(globalDays)) < Clamp(globalDays)
  {
    var globalDelay := Clamp(globalDays);
    if ruleIds != [] {
      MoreRulesNeverShorten(ruleIds, ruleIds + [newRule], actions, globalDelay);
    } else {
      assert ruleIds + [newRule] == [newRule];
    }
  }

  /** Ten days in, under a global delay of thirty, a first matching rule with a delay of zero makes the deadline past. */
  lemma FirstRuleCanMakeItDue(created: int)
    ensures var actions: map<int, Option<Setting>> := map[7 := Some(Whole(0))];
      var now := created + 10 * MICROSECONDS_PER_DAY;
      && Policy([], actions, 30, created, now) == AutoDeletePolicy(30, created + 30 * MICROSECONDS_PER_DAY, false)
      && Policy([7], actions, 30, created, now) == AutoDeletePolicy(0, created, true)
  {
    var actions: map<int, Option<Setting>> := map[7 := Some(Whole(0))];
    assert RuleDelay(7, actions, 30) == 0;
    assert LongestDelay([7], actions, 30) == 0;
  }
}
