/**
 Whose spelling of a user's name the watch table stores. Plex reports no play counts, so besides the
 time the spelling is all there is to a row.
 */
module WatchSpelling {
  import opened AsciiText
  import opened Common
  import opened WatchRuns
  import opened WatchSnapshot

  // ---- when it cannot matter ----

  /** Viewings of one key at one second spell the user alike. */
  ghost predicate TiesAgree(history: seq<Viewing>) {
    forall u, v, k, e, f :: u in history && v in history && Says(u, k, e) && Says(v, k, f) && u.viewedAt == v.viewedAt ==> e == f
  }

  ghost predicate SaidBy(history: seq<Viewing>, k: Key, e: Entry) {
    exists v :: v in history && Says(v, k, e)
  }

  lemma BuiltIsSaid(history: seq<Viewing>, cutoff: Option<int>, k: Key)
    requires k in Build(Snapshots(Fetched(history, cutoff)))
    ensures SaidBy(history, k, Build(Snapshots(Fetched(history, cutoff)))[k])
  {
    var v := RebuildIsSaid(Fetched(history, cutoff), k);
    FetchedMembers(history, cutoff, v);
  }

  /** Every stored row is what some visible viewing says. */
  lemma {:induction false} RowsAreSaid(start: Cache, visits: seq<Visit>, k: Key)
    requires CompleteRun(start, visits) && k in StateAfter(start, visits).rows
    ensures SaidBy(Visible(visits), k, StateAfter(start, visits).rows[k])
  {
    var front, now := visits[..|visits| - 1], visits[|visits| - 1].now;
    var c := StateAfter(start, front);
    if EndsInRebuild(start, visits) {
      BuiltIsSaid(Visible(visits), None, k);
    } else {
      var built := Build(Snapshots(Fetched(Visible(visits), Cutoff(c.sync, now))));
      var e := Winner(c.rows, built, k);
      if k in c.rows && e == c.rows[k] {
        RowsAreSaid(start, front, k);
        var v :| v in Visible(front) && Says(v, k, e);
      } else {
        BuiltIsSaid(Visible(visits), Cutoff(c.sync, now), k);
      }
    }
  }

  /** When ties agree, the table is what a full rebuild would store, spelling and all, in every order of listing. */
  lemma TableIsRebuild(start: Cache, visits: seq<Visit>)
    requires CompleteRun(start, visits) && TiesAgree(Visible(visits))
    ensures StateAfter(start, visits).rows == Build(Snapshots(Visible(visits)))
  {
    var rows, rebuilt := StateAfter(start, visits).rows, Build(Snapshots(Visible(visits)));
    MatchesThroughoutIff(start, visits);
    MatchesAtTheEnd(start, visits);
    forall k | k in rows ensures rows[k] == rebuilt[k] {
      RowsAreSaid(start, visits, k);
      var u :| u in Visible(visits) && Says(u, k, rows[k]);
      var v := RebuildIsSaid(Visible(visits), k);
      assert u.viewedAt == rows[k].lastWatchedAt && v.viewedAt == rebuilt[k].lastWatchedAt;
    }
  }

  // ---- a tie that matters ----

  /** First only `u` is visible, then `v` as well, listed in front of it. */
  function TieInFront(u: Viewing, v: Viewing): seq<Visit> {
    [Visit([u], 0), Visit([v, u], 0)]
  }

  lemma BuildOfOne(u: Viewing, k: Key, e: Entry)
    requires Says(u, k, e)
    ensures Snapshots([u]) == [AsSnapshot(u)] && Build(Snapshots([u])) == map[k := e]
  {
    assert [u][..0] == [] && Snapshots([]) == [];
    assert Snapshots([u]) == [AsSnapshot(u)];
    assert [AsSnapshot(u)][..0] == [];
  }

  lemma BuildOfTie(v: Viewing, u: Viewing, k: Key, e: Entry, f: Entry)
    requires Says(u, k, e) && Says(v, k, f) && u.viewedAt == v.viewedAt
    ensures Build(Snapshots([v, u])) == map[k := f]
  {
    BuildOfOne(v, k, f);
    assert [v, u][..1] == [v];
    var merged := Snapshots([v, u]);
    assert merged == Noted([AsSnapshot(v)], u);
    if merged != [AsSnapshot(v)] {
      assert merged == [AsSnapshot(v), AsSnapshot(u)] && merged[..1] == [AsSnapshot(v)];
    }
  }

  /** The cache after a first visit that shows `u` alone. */
  function ShowingOne(u: Viewing, k: Key, e: Entry): Cache {
    Cache(map[k := e], SyncState(Some(FORMAT_VERSION), Some(u.viewedAt), Some(0)))
  }

  lemma FirstVisitShowsOne(u: Viewing, k: Key, e: Entry)
    requires Says(u, k, e)
    ensures Refreshed(UNFILLED, [u], 0) == ShowingOne(u, k, e)
  {
    FetchedAll([u], None);
    BuildOfOne(u, k, e);
    assert [u][..0] == [] && MaxViewedAt([]) == None;
    assert MaxViewedAt([u]) == Some(u.viewedAt);
  }

  lemma SecondVisitKeepsTheOld(u: Viewing, v: Viewing, k: Key, e: Entry, f: Entry)
    requires Says(u, k, e) && Says(v, k, f) && u.viewedAt == v.viewedAt
    ensures MissesNothing(ShowingOne(u, k, e), [v, u], 0)
    ensures Refreshed(ShowingOne(u, k, e), [v, u], 0).rows == map[k := e]
  {
    FetchedAll([v, u], Cutoff(ShowingOne(u, k, e).sync, 0));
    BuildOfTie(v, u, k, e, f);
    assert Merged(map[k := e], map[k := f]) == map[k := e];
  }

  /** A tie that arrives in front of what it ties with: the table keeps `e`, a rebuild would store `f`. */
  lemma TieInFrontKeepsTheOld(u: Viewing, v: Viewing, k: Key, e: Entry, f: Entry)
    requires Says(u, k, e) && Says(v, k, f) && u.viewedAt == v.viewedAt
    ensures CompleteRun(UNFILLED, TieInFront(u, v)) && Visible(TieInFront(u, v)) == [v, u]
    ensures StateAfter(UNFILLED, TieInFront(u, v)).rows == map[k := e]
    ensures Build(Snapshots([v, u])) == map[k := f]
  {
    var first := [Visit([u], 0)];
    assert first[..0] == [] && StateAfter(UNFILLED, []) == UNFILLED;
    assert TieInFront(u, v)[..1] == first;
    FirstVisitShowsOne(u, k, e);
    assert StateAfter(UNFILLED, first) == ShowingOne(u, k, e);
    assert CompleteRun(UNFILLED, first);
    SecondVisitKeepsTheOld(u, v, k, e, f);
    BuildOfTie(v, u, k, e, f);
  }

  /** A run that shows nothing but viewings of `history`. */
  ghost predicate RunOver(visits: seq<Visit>, history: seq<Viewing>) {
    CompleteRun(UNFILLED, visits) && forall v :: v in Visible(visits) ==> v in history
  }

  ghost predicate StoresRebuild(visits: seq<Visit>) {
    StateAfter(UNFILLED, visits).rows == Build(Snapshots(Visible(visits)))
  }

  lemma DisagreeingTiesMatter(history: seq<Viewing>) returns (visits: seq<Visit>)
    requires !TiesAgree(history)
    ensures RunOver(visits, history) && !StoresRebuild(visits)
  {
    var u, v, k, e, f :| u in history && v in history && Says(u, k, e) && Says(v, k, f) && u.viewedAt == v.viewedAt && e != f;
    visits := TieInFront(u, v);
    TieInFrontKeepsTheOld(u, v, k, e, f);
    assert map[k := e][k] != map[k := f][k];
  }

  /**
   Exactly for which viewings the spelling can be relied on: if ties among them agree, every run that
   shows nothing else stores what a rebuild would; if not, some run stores something else.
   */
  lemma TableIsRebuildIff(history: seq<Viewing>)
    ensures TiesAgree(history) <==> forall visits :: RunOver(visits, history) ==> StoresRebuild(visits)
  {
    if TiesAgree(history) {
      forall visits | RunOver(visits, history) ensures StoresRebuild(visits) {
        TableIsRebuild(UNFILLED, visits);
      }
    } else {
      var visits := DisagreeingTiesMatter(history);
    }
  }

  /** Such a tie: one movie, reported for "ann" and then, for the same second, for "Ann". */
  lemma OldSpellingOfATieStays()
    ensures var u, v := Viewing(5, Some(Subject(Movie, 1, "ann", None))), Viewing(5, Some(Subject(Movie, 1, "Ann", None)));
      var visits := TieInFront(u, v);
      && CompleteRun(UNFILLED, visits)
      && StateAfter(UNFILLED, visits).rows == map[Key(Movie, 1, "ann") := Entry("ann", 5, None)]
      && Build(Snapshots(Visible(visits))) == map[Key(Movie, 1, "ann") := Entry("Ann", 5, None)]
  {
    var u, v := Viewing(5, Some(Subject(Movie, 1, "ann", None))), Viewing(5, Some(Subject(Movie, 1, "Ann", None)));
    assert StripBlanks("ann") == "ann" && StripBlanks("Ann") == "Ann";
    assert Lower("ann") == "ann" && Lower("Ann") == "ann";
    TieInFrontKeepsTheOld(u, v, Key(Movie, 1, "ann"), Entry("ann", 5, None), Entry("Ann", 5, None));
  }

  // ---- whose spelling is stored, when the newest comes first ----

  /** Both count for the same key, or would but for a blank user. */
  predicate SameKey(u: Viewing, v: Viewing) {
    u.subject.Some? && v.subject.Some? && AsSnapshot(u).KeyOf() == AsSnapshot(v).KeyOf()
  }

  /** For every key the newest viewing is listed first, as the client asks. */
  ghost predicate NewestFirst(history: seq<Viewing>) {
    history != [] ==>
      var front, last := history[..|history| - 1], history[|history| - 1];
      NewestFirst(front) && forall u :: u in front && SameKey(u, last) ==> u.viewedAt >= last.viewedAt
  }

  /** The viewing listed first for a key. */
  function FirstAbout(history: seq<Viewing>, k: Key): Option<Viewing> {
    if history == [] then None
    else
      var earlier := FirstAbout(history[..|history| - 1], k);
      var last := history[|history| - 1];
      if earlier.Some? then earlier else if About(last, k) then Some(last) else None
  }

  lemma {:induction false} FirstAboutIsAbout(history: seq<Viewing>, k: Key)
    ensures FirstAbout(history, k).Some? ==> FirstAbout(history, k).value in history && About(FirstAbout(history, k).value, k)
    ensures FirstAbout(history, k).None? ==> forall v :: v in history ==> !About(v, k)
  {
    if history != [] {
      FirstAboutIsAbout(history[..|history| - 1], k);
      assert forall v :: v in history <==> v in history[..|history| - 1] || v == history[|history| - 1];
    }
  }

  lemma FetchedStep(front: seq<Viewing>, last: Viewing, cutoff: Option<int>)
    ensures Fetched(front + [last], cutoff)
      == if cutoff.None? || last.viewedAt >= cutoff.value then Fetched(front, cutoff) + [last] else Fetched(front, cutoff)
  {
    assert (front + [last])[..|front|] == front;
  }

  lemma NewestFirstStep(front: seq<Viewing>, last: Viewing)
    ensures NewestFirst(front + [last]) <==> NewestFirst(front) && forall u :: u in front && SameKey(u, last) ==> u.viewedAt >= last.viewedAt
  {
    assert (front + [last])[..|front|] == front;
  }

  lemma FirstAboutStep(front: seq<Viewing>, last: Viewing, k: Key)
    ensures FirstAbout(front + [last], k)
      == if FirstAbout(front, k).Some? then FirstAbout(front, k) else if About(last, k) then Some(last) else None
  {
    assert (front + [last])[..|front|] == front;
  }

  lemma SnapshotsStep(front: seq<Viewing>, last: Viewing)
    ensures Snapshots(front + [last]) == Noted(Snapshots(front), last)
  {
    assert (front + [last])[..|front|] == front;
  }

  lemma {:induction false} FetchedStaysNewestFirst(history: seq<Viewing>, cutoff: Option<int>)
    requires NewestFirst(history)
    ensures NewestFirst(Fetched(history, cutoff))
  {
    if history != [] {
      var front, last := history[..|history| - 1], history[|history| - 1];
      var seen := Fetched(front, cutoff);
      assert history == front + [last];
      FetchedStaysNewestFirst(front, cutoff);
      FetchedStep(front, last, cutoff);
      NewestFirstStep(seen, last);
      forall u | u in seen && SameKey(u, last) ensures u.viewedAt >= last.viewedAt {
        FetchedMembers(front, cutoff, u);
      }
    }
  }

  /** A first viewing that is fetched is first among the fetched. */
  lemma {:induction false} FirstAboutIsFetched(history: seq<Viewing>, cutoff: Option<int>, k: Key)
    requires FirstAbout(history, k).Some? && (cutoff.Some? ==> FirstAbout(history, k).value.viewedAt >= cutoff.value)
    ensures FirstAbout(Fetched(history, cutoff), k) == FirstAbout(history, k)
  {
    var front, last := history[..|history| - 1], history[|history| - 1];
    var seen := Fetched(front, cutoff);
    assert history == front + [last];
    FetchedStep(front, last, cutoff);
    FirstAboutStep(seen, last, k);
    if FirstAbout(front, k).Some? {
      FirstAboutIsFetched(front, cutoff, k);
    } else {
      FirstAboutIsAbout(seen, k);
      FirstAboutIsAbout(front, k);
      if FirstAbout(seen, k).Some? {
        FetchedMembers(front, cutoff, FirstAbout(seen, k).value);
      }
    }
  }

  /** When the newest comes first, the client never moves a time forward: it appends a new subject or keeps all. */
  lemma NotedAppends(front: seq<Viewing>, last: Viewing)
    requires NewestFirst(front + [last])
    ensures var merged := Snapshots(front);
      || Noted(merged, last) == merged
      || (last.subject.Some? && Noted(merged, last) == merged + [AsSnapshot(last)])
  {
    NewestFirstStep(front, last);
    if last.subject.Some? {
      var merged := Snapshots(front);
      var i := FirstIndex(merged, s => SubjectOf(s) == last.subject.value);
      if i < |merged| {
        var u := SnapshotIsSeen(front, merged[i]);
        assert SameKey(u, last);
      }
    }
  }

  /** What one more viewing behind all others does to the table: it counts only for a key nothing else counts for. */
  lemma BuildOfOneMore(front: seq<Viewing>, last: Viewing, k: Key)
    requires NewestFirst(front + [last])
    ensures var before, after := Build(Snapshots(front)), Build(Snapshots(front + [last]));
      if k in before then k in after && after[k] == before[k]
      else if About(last, k) then k in after && after[k] == AsSnapshot(last).EntryOf()
      else k !in after
  {
    var merged, noted := Snapshots(front), Snapshots(front + [last]);
    SnapshotsStep(front, last);
    NotedAppends(front, last);
    NewestFirstStep(front, last);
    if noted != merged {
      assert noted[..|merged|] == merged;
      assert Build(noted) == Absorbed(Build(merged), AsSnapshot(last));
    } else if About(last, k) {
      RebuildIsAtLeast(front + [last], k, last);
    }
    if k in Build(merged) && About(last, k) {
      var u := RebuildIsSaid(front, k);
      assert SameKey(u, last);
    }
  }

  /** A rebuild stores what the viewing listed first for a key says. */
  lemma {:induction false} RebuildIsFirst(history: seq<Viewing>, k: Key)
    requires NewestFirst(history)
    ensures k in Build(Snapshots(history)) <==> FirstAbout(history, k).Some?
    ensures FirstAbout(history, k).Some? ==> Says(FirstAbout(history, k).value, k, Build(Snapshots(history))[k])
  {
    if history != [] {
      var front, last := history[..|history| - 1], history[|history| - 1];
      assert history == front + [last];
      RebuildIsFirst(front, k);
      FirstAboutStep(front, last, k);
      BuildOfOneMore(front, last, k);
    }
  }

  /** The latest time visible for a key. */
  ghost function LatestTime(history: seq<Viewing>, k: Key): Option<int> {
    if k in Build(Snapshots(history)) then Some(Build(Snapshots(history))[k].lastWatchedAt) else None
  }

  /** How many visits it took, the last full rebuild or a later visit, to show the latest time of `k` for the first time. */
  ghost function FirstToShow(start: Cache, visits: seq<Visit>, k: Key): nat
    requires visits != []
  {
    var front := visits[..|visits| - 1];
    if EndsInRebuild(start, visits) || front == [] || LatestTime(Visible(front), k) != LatestTime(Visible(visits), k)
    then |visits| else FirstToShow(start, front, k)
  }

  lemma {:induction false} FirstToShowIsAVisit(start: Cache, visits: seq<Visit>, k: Key)
    requires visits != []
    ensures 1 <= FirstToShow(start, visits, k) <= |visits|
  {
    var front := visits[..|visits| - 1];
    if FirstToShow(start, visits, k) != |visits| {
      FirstToShowIsAVisit(start, front, k);
    }
  }

  ghost predicate AllNewestFirst(visits: seq<Visit>) {
    forall i :: 0 <= i < |visits| ==> NewestFirst(visits[i].history)
  }

  /** A time that the visit shows for the first time is fetched, and stored as listed. */
  lemma NewTimeIsStored(c: Cache, before: seq<Viewing>, after: seq<Viewing>, now: int, k: Key)
    requires !NeedsFullRebuild(c.sync, now) && MissesNothing(c, after, now) && NewestFirst(after)
    requires SameTimes(c.rows, Build(Snapshots(before))) && Grows(before, after)
    requires k in Refreshed(c, after, now).rows && LatestTime(before, k) != LatestTime(after, k)
    ensures FirstAbout(after, k).Some? && Says(FirstAbout(after, k).value, k, Refreshed(c, after, now).rows[k])
  {
    var cutoff := Cutoff(c.sync, now);
    var rows, built := Refreshed(c, after, now).rows, Build(Snapshots(Fetched(after, cutoff)));
    MatchingRowsAreVisible(c, before, after);
    IncrementalMatchesIff(c, after, now);
    RebuildIsFirst(after, k);
    assert rows[k] == built[k] by {
      assert k in c.rows ==> c.rows[k].lastWatchedAt != rows[k].lastWatchedAt;
    }
    var v := RebuildIsSaid(Fetched(after, cutoff), k);
    FetchedMembers(after, cutoff, v);
    FirstAboutIsFetched(after, cutoff, k);
    FetchedStaysNewestFirst(after, cutoff);
    RebuildIsFirst(Fetched(after, cutoff), k);
  }

  lemma OldTimeIsKept(c: Cache, before: seq<Viewing>, after: seq<Viewing>, now: int, k: Key)
    requires !NeedsFullRebuild(c.sync, now) && MissesNothing(c, after, now)
    requires SameTimes(c.rows, Build(Snapshots(before))) && Grows(before, after)
    requires k in Refreshed(c, after, now).rows && LatestTime(before, k) == LatestTime(after, k)
    ensures k in c.rows && Refreshed(c, after, now).rows[k] == c.rows[k]
  {
    MatchingRowsAreVisible(c, before, after);
    IncrementalMatchesIff(c, after, now);
  }

  /**
   Whose spelling is stored: that of the viewing listed first for the key at the first visit, since
   the last full rebuild, that showed the key's latest time. Later visits that show the same second in
   another spelling change nothing until the next full rebuild.
   */
  lemma {:induction false} SpellingIsOfTheFirstToShow(start: Cache, visits: seq<Visit>, k: Key)
    requires CompleteRun(start, visits) && AllNewestFirst(visits) && k in StateAfter(start, visits).rows
    ensures 1 <= FirstToShow(start, visits, k) <= |visits|
    ensures var shown := FirstAbout(Visible(visits[..FirstToShow(start, visits, k)]), k);
      shown.Some? && Says(shown.value, k, StateAfter(start, visits).rows[k])
  {
    var front, now := visits[..|visits| - 1], visits[|visits| - 1].now;
    var c, after := StateAfter(start, front), Visible(visits);
    assert visits[..|visits|] == visits;
    FirstToShowIsAVisit(start, visits, k);
    if EndsInRebuild(start, visits) {
      FullRebuildIsBuild(c, after, now);
      RebuildIsFirst(after, k);
    } else {
      MatchesThroughoutIff(start, front);
      MatchesAtTheEnd(start, front);
      if LatestTime(Visible(front), k) != LatestTime(after, k) {
        NewTimeIsStored(c, Visible(front), after, now, k);
      } else {
        OldTimeIsKept(c, Visible(front), after, now, k);
        SpellingIsOfTheFirstToShow(start, front, k);
        FirstToShowIsAVisit(start, front, k);
        assert front[..FirstToShow(start, front, k)] == visits[..FirstToShow(start, front, k)];
      }
    }
  }
}
