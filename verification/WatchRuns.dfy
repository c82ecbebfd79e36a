/**
 What any number of refreshes of the watch table amounts to, against the rebuild a full refresh would
 do from everything visible.
 */
module WatchRuns {
  import opened AsciiText
  import opened Common
  import opened WatchSnapshot

  datatype Visit = Visit(history: seq<Viewing>, now: int)

  ghost function StateAfter(start: Cache, visits: seq<Visit>): Cache {
    if visits == [] then start
    else Refreshed(StateAfter(start, visits[..|visits| - 1]), visits[|visits| - 1].history, visits[|visits| - 1].now)
  }

  ghost function Visible(visits: seq<Visit>): seq<Viewing> {
    if visits == [] then [] else visits[|visits| - 1].history
  }

  /** Whether the last visit refreshes in full. */
  ghost predicate EndsInRebuild(start: Cache, visits: seq<Visit>)
    requires visits != []
  {
    NeedsFullRebuild(StateAfter(start, visits[..|visits| - 1]).sync, visits[|visits| - 1].now)
  }

  // ---- the table as one fold ----

  /** All snapshots fetched since the last full rebuild, pass after pass. */
  ghost function FetchedSince(start: Cache, visits: seq<Visit>): seq<Snapshot> {
    if visits == [] then []
    else
      var front := visits[..|visits| - 1];
      var c := StateAfter(start, front);
      var pass := Snapshots(Fetched(Visible(visits), Cutoff(c.sync, visits[|visits| - 1].now)));
      if EndsInRebuild(start, visits) then pass else FetchedSince(start, front) + pass
  }

  /** Whatever the server shows and when: the table is built from all that has been fetched since the last rebuild. */
  lemma {:induction false} TableIsBuildOfFetched(start: Cache, visits: seq<Visit>)
    requires start.rows == map[]
    ensures StateAfter(start, visits).rows == Build(FetchedSince(start, visits))
  {
    if visits != [] {
      var front := visits[..|visits| - 1];
      TableIsBuildOfFetched(start, front);
      if !EndsInRebuild(start, visits) {
        var c := StateAfter(start, front);
        MergeIsBuildOfConcat(FetchedSince(start, front), Snapshots(Fetched(Visible(visits), Cutoff(c.sync, visits[|visits| - 1].now))));
      }
    }
  }

  // ---- what viewings say ----

  /** Whether `v` counts for `k`. */
  predicate About(v: Viewing, k: Key) {
    v.subject.Some? && AsSnapshot(v).Counts() && AsSnapshot(v).KeyOf() == k
  }

  /** Whether `v` counts for `k` as entry `e`. */
  predicate Says(v: Viewing, k: Key, e: Entry) {
    About(v, k) && AsSnapshot(v).EntryOf() == e
  }

  /**
   Two viewings are about one key exactly when they are of one title and one user, by a name that is
   not blank; what a viewing says is its time and the name between the blanks.
   */
  lemma AboutOneKeyIff(u: Viewing, v: Viewing, left: string, core: string, right: string)
    requires u.subject.Some? && v.subject.Some? && Spells(u.subject.value.watchUserKey, left, core, right)
    ensures var (a, b) := (u.subject.value, v.subject.value);
      var k := Key(a.mediaType, a.tmdbId, Lower(core));
      && (About(v, k) <==> core != [] && b.mediaType == a.mediaType && b.tmdbId == a.tmdbId && SameCore(b.watchUserKey, a.watchUserKey))
      && (core != [] ==> Says(u, k, Entry(core, u.viewedAt, None)))
  {
    var a, b := u.subject.value, v.subject.value;
    CountsIff(AsSnapshot(u), left, core, right);
    StripFindsCore(a.watchUserKey, left, core, right);
    KeysMeetIff(AsSnapshot(v), AsSnapshot(u));
    assert |Lower(core)| == |core|;
    assert AsSnapshot(u).KeyOf() == Key(a.mediaType, a.tmdbId, Lower(core));
  }

  lemma SameSubjectSameKey(s: Snapshot, v: Viewing)
    requires v.subject.Some? && SubjectOf(s) == v.subject.value && s.lastWatchedAt.Some?
    ensures s.KeyOf() == AsSnapshot(v).KeyOf() && s.Counts() == AsSnapshot(v).Counts()
  {
  }

  /** A rebuild holds, for every key that viewings count for, what one of the latest of them says. */
  lemma RebuildIsAtLeast(history: seq<Viewing>, k: Key, v: Viewing)
    requires v in history && About(v, k)
    ensures k in Build(Snapshots(history)) && v.viewedAt <= Build(Snapshots(history))[k].lastWatchedAt
  {
    var s := ViewingIsCovered(history, v);
    SameSubjectSameKey(s, v);
    BuildHoldsTheLatest(Snapshots(history), k);
  }

  lemma RebuildIsSaid(history: seq<Viewing>, k: Key) returns (v: Viewing)
    requires k in Build(Snapshots(history))
    ensures v in history && Says(v, k, Build(Snapshots(history))[k])
  {
    BuildHoldsTheLatest(Snapshots(history), k);
    var s :| s in Snapshots(history) && s.Counts() && s.KeyOf() == k && Build(Snapshots(history))[k] == s.EntryOf();
    v := SnapshotIsSeen(history, s);
  }

  lemma {:induction false} FetchedMembers(history: seq<Viewing>, cutoff: Option<int>, v: Viewing)
    ensures v in Fetched(history, cutoff) <==> v in history && (cutoff.None? || v.viewedAt >= cutoff.value)
  {
    if history != [] {
      FetchedMembers(history[..|history| - 1], cutoff, v);
    }
  }

  lemma {:induction false} FetchedAll(history: seq<Viewing>, cutoff: Option<int>)
    requires forall i :: 0 <= i < |history| && cutoff.Some? ==> history[i].viewedAt >= cutoff.value
    ensures Fetched(history, cutoff) == history
  {
    if history != [] {
      FetchedAll(history[..|history| - 1], cutoff);
    }
  }

  lemma FullRebuildIsBuild(c: Cache, history: seq<Viewing>, now: int)
    requires NeedsFullRebuild(c.sync, now)
    ensures Refreshed(c, history, now).rows == Build(Snapshots(history))
  {
    FetchedAll(history, None);
  }

  /** A week after the last full rebuild, and whenever the format is another, a refresh stores exactly the rebuild and remembers it. */
  lemma WeekOldIsRebuilt(c: Cache, history: seq<Viewing>, now: int)
    requires c.sync.formatVersion != Some(3) || c.sync.lastFullSyncAt.None? || now - c.sync.lastFullSyncAt.value >= 604800
    ensures Refreshed(c, history, now).rows == Build(Snapshots(history))
    ensures Refreshed(c, history, now).sync.formatVersion == Some(3) && Refreshed(c, history, now).sync.lastFullSyncAt == Some(now)
  {
    RebuildIsDueIff(c.sync, now);
    FullRebuildIsBuild(c, history, now);
  }

  /** Within the week an incremental refresh leaves format and rebuild time alone, and fetches exactly the last day before the cursor and what follows. */
  lemma WithinTheWeekIsIncremental(c: Cache, history: seq<Viewing>, now: int, v: Viewing)
    requires c.sync.formatVersion == Some(3) && c.sync.lastViewedAt.Some?
    requires c.sync.lastFullSyncAt.Some? && now - c.sync.lastFullSyncAt.value < 604800
    ensures Refreshed(c, history, now).sync.formatVersion == Some(3) && Refreshed(c, history, now).sync.lastFullSyncAt == c.sync.lastFullSyncAt
    ensures v in Fetched(history, Cutoff(c.sync, now)) <==> v in history && v.viewedAt >= c.sync.lastViewedAt.value - 86400
  {
    RebuildIsDueIff(c.sync, now);
    FetchedMembers(history, Cutoff(c.sync, now), v);
  }

  // ---- last-watched times ----

  /** Same keys with the same last-watched times; who spelled the name may differ. */
  ghost predicate SameTimes(a: Table, b: Table) {
    a.Keys == b.Keys && forall k :: k in a ==> a[k].lastWatchedAt == b[k].lastWatchedAt
  }

  ghost predicate Grows(before: seq<Viewing>, after: seq<Viewing>) {
    forall v :: v in before ==> v in after
  }

  /** What is stored for the key is at least as late. */
  ghost predicate IsStored(c: Cache, v: Viewing, k: Key) {
    k in c.rows && v.viewedAt <= c.rows[k].lastWatchedAt
  }

  /** Some viewing of the key is fetched, and so is later than anything behind the cutoff. */
  ghost predicate IsOvertaken(after: seq<Viewing>, cutoff: int, k: Key) {
    exists u :: u in after && About(u, k) && u.viewedAt >= cutoff
  }

  /** Every viewing behind the cutoff of an incremental pass is stored already or overtaken by a fetched one. */
  ghost predicate MissesNothing(c: Cache, after: seq<Viewing>, now: int)
    requires !NeedsFullRebuild(c.sync, now)
  {
    forall v, k :: v in after && About(v, k) && v.viewedAt < Cutoff(c.sync, now).value ==>
      IsStored(c, v, k) || IsOvertaken(after, Cutoff(c.sync, now).value, k)
  }

  /** No row is later than what is visible for its key. */
  ghost predicate RowsAreVisible(c: Cache, after: seq<Viewing>) {
    forall k :: k in c.rows ==> exists v :: v in after && About(v, k) && v.viewedAt >= c.rows[k].lastWatchedAt
  }

  lemma FetchedReaches(c: Cache, after: seq<Viewing>, now: int, k: Key, u: Viewing)
    requires !NeedsFullRebuild(c.sync, now) && u in after && About(u, k) && u.viewedAt >= Cutoff(c.sync, now).value
    ensures k in Refreshed(c, after, now).rows && u.viewedAt <= Refreshed(c, after, now).rows[k].lastWatchedAt
  {
    FetchedMembers(after, Cutoff(c.sync, now), u);
    RebuildIsAtLeast(Fetched(after, Cutoff(c.sync, now)), k, u);
  }

  lemma RowsStayVisible(c: Cache, after: seq<Viewing>, now: int, k: Key)
    requires RowsAreVisible(c, after) && !NeedsFullRebuild(c.sync, now) && k in Refreshed(c, after, now).rows
    ensures k in Build(Snapshots(after)) && Refreshed(c, after, now).rows[k].lastWatchedAt <= Build(Snapshots(after))[k].lastWatchedAt
  {
    var seen := Fetched(after, Cutoff(c.sync, now));
    if k in c.rows {
      var v :| v in after && About(v, k) && v.viewedAt >= c.rows[k].lastWatchedAt;
      RebuildIsAtLeast(after, k, v);
    }
    if k in Build(Snapshots(seen)) {
      var v := RebuildIsSaid(seen, k);
      FetchedMembers(after, Cutoff(c.sync, now), v);
      RebuildIsAtLeast(after, k, v);
    }
  }

  lemma NothingMissedReaches(c: Cache, after: seq<Viewing>, now: int, k: Key)
    requires !NeedsFullRebuild(c.sync, now) && MissesNothing(c, after, now) && k in Build(Snapshots(after))
    ensures k in Refreshed(c, after, now).rows
    ensures Build(Snapshots(after))[k].lastWatchedAt <= Refreshed(c, after, now).rows[k].lastWatchedAt
  {
    var v := RebuildIsSaid(after, k);
    var cutoff := Cutoff(c.sync, now).value;
    if v.viewedAt >= cutoff {
      FetchedReaches(c, after, now, k, v);
    } else if !IsStored(c, v, k) {
      var u :| u in after && About(u, k) && u.viewedAt >= cutoff;
      FetchedReaches(c, after, now, k, u);
    }
  }

  lemma MatchMissesNothing(c: Cache, after: seq<Viewing>, now: int, v: Viewing, k: Key)
    requires !NeedsFullRebuild(c.sync, now) && SameTimes(Refreshed(c, after, now).rows, Build(Snapshots(after)))
    requires v in after && About(v, k) && v.viewedAt < Cutoff(c.sync, now).value
    ensures IsStored(c, v, k) || IsOvertaken(after, Cutoff(c.sync, now).value, k)
  {
    var cutoff := Cutoff(c.sync, now);
    var built := Build(Snapshots(Fetched(after, cutoff)));
    RebuildIsAtLeast(after, k, v);
    if k in built {
      var u := RebuildIsSaid(Fetched(after, cutoff), k);
      FetchedMembers(after, cutoff, u);
      assert IsOvertaken(after, cutoff.value, k);
    } else {
      assert Refreshed(c, after, now).rows[k] == c.rows[k];
    }
  }

  /**
   Exactly when an incremental refresh stores the times of a rebuild: nothing it does not fetch is
   missed. The rows it starts from must say nothing that is no longer visible.
   */
  lemma IncrementalMatchesIff(c: Cache, after: seq<Viewing>, now: int)
    requires !NeedsFullRebuild(c.sync, now) && RowsAreVisible(c, after)
    ensures SameTimes(Refreshed(c, after, now).rows, Build(Snapshots(after))) <==> MissesNothing(c, after, now)
  {
    var rows, rebuilt := Refreshed(c, after, now).rows, Build(Snapshots(after));
    if MissesNothing(c, after, now) {
      forall k ensures k in rows <==> k in rebuilt
        ensures k in rows ==> rows[k].lastWatchedAt == rebuilt[k].lastWatchedAt
      {
        if k in rows {
          RowsStayVisible(c, after, now, k);
        }
        if k in rebuilt {
          NothingMissedReaches(c, after, now, k);
        }
      }
    }
    if SameTimes(rows, rebuilt) {
      forall v, k | v in after && About(v, k) && v.viewedAt < Cutoff(c.sync, now).value
        ensures IsStored(c, v, k) || IsOvertaken(after, Cutoff(c.sync, now).value, k)
      {
        MatchMissesNothing(c, after, now, v, k);
      }
    }
  }

  /** A viewing that becomes visible two days behind the cursor is missed until the next full rebuild. */
  lemma TwoDaysLateIsMissed()
    ensures var c := Cache(map[], SyncState(Some(FORMAT_VERSION), Some(200000), Some(0)));
      var v := Viewing(0, Some(Subject(Movie, 1, "ann", None)));
      && !NeedsFullRebuild(c.sync, 0) && Refreshed(c, [v], 0).rows == map[]
      && Key(Movie, 1, "ann") in Build(Snapshots([v]))
  {
    var v := Viewing(0, Some(Subject(Movie, 1, "ann", None)));
    assert StripBlanks("ann") == "ann" && Lower("ann") == "ann";
    RebuildIsAtLeast([v], Key(Movie, 1, "ann"), v);
    assert [v][..0] == [] && Fetched([v], Some(200000 - OVERLAP_WINDOW)) == [];
  }

  // ---- times over runs ----

  /** Since some full rebuild the visible history has only grown, and no incremental pass has missed anything. */
  ghost predicate CompleteRun(start: Cache, visits: seq<Visit>) {
    visits != [] &&
      var front := visits[..|visits| - 1];
      || EndsInRebuild(start, visits)
      || (&& CompleteRun(start, front) && Grows(Visible(front), Visible(visits))
          && MissesNothing(StateAfter(start, front), Visible(visits), visits[|visits| - 1].now))
  }

  /** Since some full rebuild the visible history has only grown, and the times have matched at every visit. */
  ghost predicate MatchesThroughout(start: Cache, visits: seq<Visit>) {
    visits != [] &&
      var front := visits[..|visits| - 1];
      || EndsInRebuild(start, visits)
      || (&& MatchesThroughout(start, front) && Grows(Visible(front), Visible(visits))
          && SameTimes(StateAfter(start, visits).rows, Build(Snapshots(Visible(visits)))))
  }

  lemma MatchingRowsAreVisible(c: Cache, before: seq<Viewing>, after: seq<Viewing>)
    requires SameTimes(c.rows, Build(Snapshots(before))) && Grows(before, after)
    ensures RowsAreVisible(c, after)
  {
    forall k | k in c.rows ensures exists v :: v in after && About(v, k) && v.viewedAt >= c.rows[k].lastWatchedAt {
      var v := RebuildIsSaid(before, k);
      assert v in after && v.viewedAt == Build(Snapshots(before))[k].lastWatchedAt;
    }
  }

  lemma MatchesAtTheEnd(start: Cache, visits: seq<Visit>)
    requires MatchesThroughout(start, visits)
    ensures SameTimes(StateAfter(start, visits).rows, Build(Snapshots(Visible(visits))))
  {
    if EndsInRebuild(start, visits) {
      FullRebuildIsBuild(StateAfter(start, visits[..|visits| - 1]), Visible(visits), visits[|visits| - 1].now);
    }
  }

  /**
   Over any run of full and incremental refreshes of a growing history, the stored times are at every
   visit those of a rebuild from everything visible if and only if no incremental pass misses anything.
   */
  lemma {:induction false} MatchesThroughoutIff(start: Cache, visits: seq<Visit>)
    ensures MatchesThroughout(start, visits) <==> CompleteRun(start, visits)
  {
    if visits != [] && !EndsInRebuild(start, visits) {
      var front := visits[..|visits| - 1];
      var c, after := StateAfter(start, front), Visible(visits);
      MatchesThroughoutIff(start, front);
      if MatchesThroughout(start, front) && Grows(Visible(front), after) {
        MatchesAtTheEnd(start, front);
        MatchingRowsAreVisible(c, Visible(front), after);
        IncrementalMatchesIff(c, after, visits[|visits| - 1].now);
      }
    }
  }

  /** The newly visible viewings are at most one day older than the cursor. */
  ghost predicate ArrivesWithinOverlap(c: Cache, before: seq<Viewing>, after: seq<Viewing>) {
    forall v :: v in after && v !in before && c.sync.lastViewedAt.Some? ==>
      v.viewedAt >= c.sync.lastViewedAt.value - OVERLAP_WINDOW
  }

  /** Since some full rebuild the visible history has only grown, by viewings within the overlap. */
  ghost predicate OverlappingRun(start: Cache, visits: seq<Visit>) {
    visits != [] &&
      var front := visits[..|visits| - 1];
      || EndsInRebuild(start, visits)
      || (&& OverlappingRun(start, front) && Grows(Visible(front), Visible(visits))
          && ArrivesWithinOverlap(StateAfter(start, front), Visible(front), Visible(visits)))
  }

  lemma OverlapMissesNothing(c: Cache, before: seq<Viewing>, after: seq<Viewing>, now: int)
    requires !NeedsFullRebuild(c.sync, now) && SameTimes(c.rows, Build(Snapshots(before)))
    requires ArrivesWithinOverlap(c, before, after)
    ensures MissesNothing(c, after, now)
  {
    forall v, k | v in after && About(v, k) && v.viewedAt < Cutoff(c.sync, now).value ensures IsStored(c, v, k) {
      RebuildIsAtLeast(before, k, v);
    }
  }

  lemma {:induction false} OverlappingRunIsComplete(start: Cache, visits: seq<Visit>)
    requires OverlappingRun(start, visits)
    ensures CompleteRun(start, visits)
  {
    if !EndsInRebuild(start, visits) {
      var front := visits[..|visits| - 1];
      OverlappingRunIsComplete(start, front);
      MatchesThroughoutIff(start, front);
      MatchesAtTheEnd(start, front);
      OverlapMissesNothing(StateAfter(start, front), Visible(front), Visible(visits), visits[|visits| - 1].now);
    }
  }

  /** The one-day overlap is enough: whatever comes within it, the times are those of a rebuild. */
  lemma RunMatchesRebuild(start: Cache, visits: seq<Visit>)
    requires OverlappingRun(start, visits)
    ensures SameTimes(StateAfter(start, visits).rows, Build(Snapshots(Visible(visits))))
  {
    OverlappingRunIsComplete(start, visits);
    MatchesThroughoutIff(start, visits);
    MatchesAtTheEnd(start, visits);
  }

  /** From the first visit on the history only grows, by viewings within the overlap. */
  ghost predicate SteadyRun(start: Cache, visits: seq<Visit>) {
    visits != [] ==>
      var front := visits[..|visits| - 1];
      && SteadyRun(start, front)
      && (front != [] ==> Grows(Visible(front), Visible(visits)) && ArrivesWithinOverlap(StateAfter(start, front), Visible(front), Visible(visits)))
  }

  lemma {:induction false} SteadyRunOverlaps(start: Cache, visits: seq<Visit>)
    requires start.sync.formatVersion != Some(FORMAT_VERSION) && SteadyRun(start, visits) && visits != []
    ensures OverlappingRun(start, visits)
  {
    var front := visits[..|visits| - 1];
    if front != [] {
      SteadyRunOverlaps(start, front);
    }
  }

  /** A store never filled in the current format is rebuilt at the first visit, so the run may start there. */
  lemma SteadyRunMatchesRebuild(start: Cache, visits: seq<Visit>)
    requires start.sync.formatVersion != Some(FORMAT_VERSION) && SteadyRun(start, visits) && visits != []
    ensures SameTimes(StateAfter(start, visits).rows, Build(Snapshots(Visible(visits))))
  {
    SteadyRunOverlaps(start, visits);
    RunMatchesRebuild(start, visits);
  }

  // ---- the cursor ----

  /** Over any run the cursor never goes back. */
  lemma {:induction false} CursorNeverGoesBack(start: Cache, visits: seq<Visit>, n: nat)
    requires n <= |visits|
    ensures var early := StateAfter(start, visits[..n]).sync.lastViewedAt;
      early.Some? ==> StateAfter(start, visits).sync.lastViewedAt.Some?
                      && early.value <= StateAfter(start, visits).sync.lastViewedAt.value
    decreases |visits|
  {
    if n == |visits| {
      assert visits[..n] == visits;
    } else {
      var front := visits[..|visits| - 1];
      assert front[..n] == visits[..n];
      CursorNeverGoesBack(start, front, n);
    }
  }

  lemma RefreshedCursor(c: Cache, history: seq<Viewing>, now: int)
    ensures Refreshed(c, history, now).sync.lastViewedAt
      == Advanced(c.sync.lastViewedAt, MaxViewedAt(Fetched(history, Cutoff(c.sync, now))))
  {
  }

  /** Whatever the cache held, after a refresh the cursor is at or past everything visible. */
  lemma CursorReachesTheLatest(c: Cache, history: seq<Viewing>, now: int, v: Viewing)
    requires v in history
    ensures Refreshed(c, history, now).sync.lastViewedAt.Some?
    ensures v.viewedAt <= Refreshed(c, history, now).sync.lastViewedAt.value
  {
    var cutoff := Cutoff(c.sync, now);
    var seen := Fetched(history, cutoff);
    RefreshedCursor(c, history, now);
    FetchedMembers(history, cutoff, v);
    if cutoff.None? || v.viewedAt >= cutoff.value {
      NothingIsLater(seen, v);
    }
  }

  /** A cursor that moves, moves to the time of a visible viewing. */
  lemma CursorMovesToAViewing(c: Cache, history: seq<Viewing>, now: int) returns (v: Viewing)
    requires Refreshed(c, history, now).sync.lastViewedAt != c.sync.lastViewedAt
    ensures v in history && Refreshed(c, history, now).sync.lastViewedAt == Some(v.viewedAt)
  {
    var seen := Fetched(history, Cutoff(c.sync, now));
    v := LatestIsSeen(seen);
    FetchedMembers(history, Cutoff(c.sync, now), v);
  }
}
