/**
 The per-user "last watched" table of one Plex server, refreshed in full or from a cursor.

 Times are whole seconds, as Plex reports them. A fetch returns all visible history from its cutoff
 on, which the client merges into one snapshot per subject; the table holds one row per key, as its
 unique constraint demands.
 */
module WatchSnapshot {
  import opened AsciiText
  import opened Common
  import opened Listings

  const FORMAT_VERSION: int := 3
  const OVERLAP_WINDOW: int := 86400
  const FULL_REBUILD_INTERVAL: int := 7 * 86400

  datatype MediaType = Movie | Series

  datatype Key = Key(mediaType: MediaType, tmdbId: int, user: string)

  datatype Entry = Entry(watchUserKey: string, lastWatchedAt: int, playCount: Option<int>)

  type Table = map<Key, Entry>

  datatype Snapshot = Snapshot(mediaType: MediaType, tmdbId: int, watchUserKey: string,
                               lastWatchedAt: Option<int>, playCount: Option<int>, sourceItemId: Option<string>)
  {
    function KeyOf(): Key {
      Key(mediaType, tmdbId, AsciiNormalize(watchUserKey))
    }

    /** Snapshots without a time or with a blank user are passed over. */
    predicate Counts() {
      lastWatchedAt.Some? && AsciiNormalize(watchUserKey) != []
    }

    function EntryOf(): Entry
      requires lastWatchedAt.Some?
    {
      Entry(StripBlanks(watchUserKey), lastWatchedAt.value, playCount)
    }
  }

  /** One key is one title of one user, blanks around the name and the case of its ASCII letters aside. */
  lemma KeysMeetIff(a: Snapshot, b: Snapshot)
    ensures a.KeyOf() == b.KeyOf() <==>
      a.mediaType == b.mediaType && a.tmdbId == b.tmdbId && SameCore(a.watchUserKey, b.watchUserKey)
    ensures a.KeyOf().mediaType == a.mediaType && a.KeyOf().tmdbId == a.tmdbId
  {
    NormalizeIff(a.watchUserKey, b.watchUserKey);
  }

  /** A snapshot counts when it has a time and its user is not blank; its row then holds the name between the blanks. */
  lemma CountsIff(s: Snapshot, left: string, core: string, right: string)
    requires Spells(s.watchUserKey, left, core, right)
    ensures s.Counts() <==> s.lastWatchedAt.Some? && core != []
    ensures s.lastWatchedAt.Some? ==> s.EntryOf() == Entry(core, s.lastWatchedAt.value, s.playCount)
  {
    StripFindsCore(s.watchUserKey, left, core, right);
    assert |Lower(core)| == |core|;
  }

  // ---- building and merging tables ----

  /** A snapshot replaces what is known about its key only when it is strictly later. */
  function Absorbed(t: Table, s: Snapshot): Table {
    if s.Counts() && (s.KeyOf() !in t || s.lastWatchedAt.value > t[s.KeyOf()].lastWatchedAt)
    then t[s.KeyOf() := s.EntryOf()] else t
  }

  ghost function Build(snapshots: seq<Snapshot>): Table {
    if snapshots == [] then map[]
    else Absorbed(Build(snapshots[..|snapshots| - 1]), snapshots[|snapshots| - 1])
  }

  /** Both tables together; a strictly later row of `rows` wins. */
  ghost function Merged(existing: Table, rows: Table): Table {
    map k | k in existing.Keys + rows.Keys :: Winner(existing, rows, k)
  }

  ghost function Winner(existing: Table, rows: Table, k: Key): Entry
    requires k in existing || k in rows
  {
    if k !in existing || (k in rows && rows[k].lastWatchedAt > existing[k].lastWatchedAt) then rows[k] else existing[k]
  }

  lemma AbsorbIntoMerge(a: Table, b: Table, s: Snapshot)
    ensures Absorbed(Merged(a, b), s) == Merged(a, Absorbed(b, s))
  {
  }

  /** Merging what two lists build is building their concatenation, payload included. */
  lemma {:induction false} MergeIsBuildOfConcat(a: seq<Snapshot>, b: seq<Snapshot>)
    ensures Merged(Build(a), Build(b)) == Build(a + b)
  {
    if b == [] {
      assert a + b == a;
    } else {
      var front := b[..|b| - 1];
      assert (a + b)[..|a + b| - 1] == a + front;
      MergeIsBuildOfConcat(a, front);
      AbsorbIntoMerge(Build(a), Build(front), b[|b| - 1]);
    }
  }

  /** A key is present exactly when some snapshot counts for it, with the latest such time. */
  lemma {:induction false} BuildHoldsTheLatest(snapshots: seq<Snapshot>, k: Key)
    ensures forall s :: s in snapshots && s.Counts() && s.KeyOf() == k ==>
      k in Build(snapshots) && s.lastWatchedAt.value <= Build(snapshots)[k].lastWatchedAt
    ensures k in Build(snapshots) ==>
      exists s :: s in snapshots && s.Counts() && s.KeyOf() == k && Build(snapshots)[k] == s.EntryOf()
  {
    if snapshots != [] {
      var front := snapshots[..|snapshots| - 1];
      var last := snapshots[|snapshots| - 1];
      BuildHoldsTheLatest(front, k);
      assert forall s :: s in snapshots <==> s in front || s == last;
    }
  }

  method BuildWatchRows(snapshots: seq<Snapshot>) returns (merged: Table)
    ensures merged == Build(snapshots)
  {
    merged := map[];
    for i := 0 to |snapshots|
      invariant merged == Build(snapshots[..i])
    {
      assert snapshots[..i + 1][..i] == snapshots[..i];
      var snapshot := snapshots[i];
      if snapshot.lastWatchedAt.None? {
        continue;
      }
      var watchedAt := snapshot.lastWatchedAt.value;
      var normalized := AsciiNormalize(snapshot.watchUserKey);
      if normalized == [] {
        continue;
      }
      var identity := Key(snapshot.mediaType, snapshot.tmdbId, normalized);
      if identity !in merged || watchedAt > merged[identity].lastWatchedAt {
        merged := merged[identity := Entry(StripBlanks(snapshot.watchUserKey), watchedAt, snapshot.playCount)];
      }
    }
    assert snapshots[..|snapshots|] == snapshots;
  }

  /** One row more: it wins when it is strictly later. */
  function WithRow(merged: Table, key: Key, row: Entry): Table {
    if key !in merged || row.lastWatchedAt > merged[key].lastWatchedAt then merged[key := row] else merged
  }

  lemma MergeOneMore(existing: Table, part: Table, key: Key, row: Entry)
    requires key !in part
    ensures Merged(existing, part[key := row]) == WithRow(Merged(existing, part), key, row)
  {
  }

  /** The rows of the given keys alone. */
  ghost function RowsOf(rows: Table, keys: seq<Key>): Table {
    if keys == [] then map[]
    else
      var rest, last := RowsOf(rows, keys[..|keys| - 1]), keys[|keys| - 1];
      if last in rows then rest[last := rows[last]] else rest
  }

  lemma {:induction false} RowsOfAt(rows: Table, keys: seq<Key>, k: Key)
    ensures k in RowsOf(rows, keys) <==> k in keys && k in rows
    ensures k in RowsOf(rows, keys) ==> RowsOf(rows, keys)[k] == rows[k]
  {
    if keys != [] {
      RowsOfAt(rows, keys[..|keys| - 1], k);
    }
  }

  lemma MergeNoRows(existing: Table, rows: Table, keys: seq<Key>)
    ensures Merged(existing, RowsOf(rows, keys[..0])) == existing
  {
    assert Merged(existing, map[]) == existing;
  }

  lemma MergeAllRows(existing: Table, rows: Table, keys: seq<Key>)
    requires Elements(keys) == rows.Keys
    ensures Merged(existing, RowsOf(rows, keys[..|keys|])) == Merged(existing, rows)
  {
    assert keys[..|keys|] == keys;
    forall k ensures k in RowsOf(rows, keys) <==> k in rows
      ensures k in RowsOf(rows, keys) ==> RowsOf(rows, keys)[k] == rows[k]
    {
      RowsOfAt(rows, keys, k);
      assert k in rows ==> k in Elements(keys);
    }
    assert RowsOf(rows, keys) == rows;
  }

  lemma RowsOfNext(rows: Table, keys: seq<Key>, i: nat)
    requires i < |keys| && Distinct(keys) && Elements(keys) == rows.Keys
    ensures keys[i] in rows && keys[i] !in RowsOf(rows, keys[..i])
    ensures RowsOf(rows, keys[..i + 1]) == RowsOf(rows, keys[..i])[keys[i] := rows[keys[i]]]
  {
    assert keys[i] in Elements(keys);
    assert keys[..i + 1][..i] == keys[..i];
    RowsOfAt(rows, keys[..i], keys[i]);
  }

  /** Merging the rows of one key more. */
  lemma NextRow(existing: Table, rows: Table, keys: seq<Key>, i: nat)
    requires i < |keys| && Distinct(keys) && Elements(keys) == rows.Keys
    ensures keys[i] in rows
    ensures Merged(existing, RowsOf(rows, keys[..i + 1])) == WithRow(Merged(existing, RowsOf(rows, keys[..i])), keys[i], rows[keys[i]])
  {
    RowsOfNext(rows, keys, i);
    MergeOneMore(existing, RowsOf(rows, keys[..i]), keys[i], rows[keys[i]]);
  }

  method MergeRows(existing: Table, rows: Table) returns (merged: Table)
    ensures merged == Merged(existing, rows)
  {
    merged := existing;
    var keys := Listed(rows.Keys);
    MergeNoRows(existing, rows, keys);
    for i := 0 to |keys|
      invariant merged == Merged(existing, RowsOf(rows, keys[..i]))
    {
      var key := keys[i];
      NextRow(existing, rows, keys, i);
      if key !in merged || rows[key].lastWatchedAt > merged[key].lastWatchedAt {
        merged := merged[key := rows[key]];
      }
    }
    MergeAllRows(existing, rows, keys);
  }

  // ---- the server and its client ----

  /** What the client tells apart: a title, a user as spelled, and the episode of a series. */
  datatype Subject = Subject(mediaType: MediaType, tmdbId: int, watchUserKey: string, episode: Option<string>)

  /**
   One entry of the history. Entries of unmapped items or without a user have no subject; an entry
   that names both a movie and a series counts as two viewings of one second.
   */
  datatype Viewing = Viewing(viewedAt: int, subject: Option<Subject>)

  /** Plex reports no play counts. */
  function AsSnapshot(v: Viewing): Snapshot
    requires v.subject.Some?
  {
    var subject := v.subject.value;
    Snapshot(subject.mediaType, subject.tmdbId, subject.watchUserKey, Some(v.viewedAt), None, subject.episode)
  }

  function SubjectOf(s: Snapshot): Subject {
    Subject(s.mediaType, s.tmdbId, s.watchUserKey, s.sourceItemId)
  }

  predicate IsLater(v: Viewing, s: Snapshot) {
    s.lastWatchedAt.None? || v.viewedAt > s.lastWatchedAt.value
  }

  /** A viewing noted by the client: a subject keeps the place of its first viewing and takes its latest time. */
  function Noted(merged: seq<Snapshot>, v: Viewing): seq<Snapshot> {
    if v.subject.None? then merged
    else
      var i := FirstIndex(merged, s => SubjectOf(s) == v.subject.value);
      if i == |merged| then merged + [AsSnapshot(v)]
      else if IsLater(v, merged[i]) then merged[i := AsSnapshot(v)]
      else merged
  }

  function Snapshots(history: seq<Viewing>): seq<Snapshot> {
    if history == [] then [] else Noted(Snapshots(history[..|history| - 1]), history[|history| - 1])
  }

  method MergeHistory(history: seq<Viewing>) returns (merged: seq<Snapshot>)
    ensures merged == Snapshots(history)
  {
    merged := [];
    for i := 0 to |history|
      invariant merged == Snapshots(history[..i])
    {
      assert history[..i + 1][..i] == history[..i];
      var v := history[i];
      if v.subject.None? {
        continue;
      }
      var k := FirstIndex(merged, s => SubjectOf(s) == v.subject.value);
      if k == |merged| {
        merged := merged + [AsSnapshot(v)];
      } else if IsLater(v, merged[k]) {
        merged := merged[k := AsSnapshot(v)];
      }
    }
    assert history[..|history|] == history;
  }

  /** Every snapshot is some viewing's. */
  lemma {:induction false} SnapshotIsSeen(history: seq<Viewing>, s: Snapshot) returns (v: Viewing)
    requires s in Snapshots(history)
    ensures v in history && v.subject.Some? && AsSnapshot(v) == s
  {
    var front, last := history[..|history| - 1], history[|history| - 1];
    if s in Snapshots(front) {
      v := SnapshotIsSeen(front, s);
    } else {
      v := last;
    }
  }

  lemma NotedKeeps(merged: seq<Snapshot>, v: Viewing, s: Snapshot) returns (kept: Snapshot)
    requires s in merged && s.lastWatchedAt.Some?
    ensures kept in Noted(merged, v) && SubjectOf(kept) == SubjectOf(s)
    ensures kept.lastWatchedAt.Some? && kept.lastWatchedAt.value >= s.lastWatchedAt.value
  {
    var j :| 0 <= j < |merged| && merged[j] == s;
    kept := if v.subject.Some? && j < |Noted(merged, v)| then Noted(merged, v)[j] else s;
  }

  lemma NotedCovers(merged: seq<Snapshot>, v: Viewing) returns (s: Snapshot)
    requires v.subject.Some?
    ensures s in Noted(merged, v) && SubjectOf(s) == v.subject.value
    ensures s.lastWatchedAt.Some? && s.lastWatchedAt.value >= v.viewedAt
  {
    var i := FirstIndex(merged, s => SubjectOf(s) == v.subject.value);
    s := Noted(merged, v)[i];
  }

  /** Every viewing with a subject is represented, by a snapshot at least as late. */
  lemma {:induction false} ViewingIsCovered(history: seq<Viewing>, v: Viewing) returns (s: Snapshot)
    requires v in history && v.subject.Some?
    ensures s in Snapshots(history) && SubjectOf(s) == v.subject.value
    ensures s.lastWatchedAt.Some? && s.lastWatchedAt.value >= v.viewedAt
  {
    var front, last := history[..|history| - 1], history[|history| - 1];
    if v in front {
      s := ViewingIsCovered(front, v);
      s := NotedKeeps(Snapshots(front), last, s);
    } else {
      s := NotedCovers(Snapshots(front), last);
    }
  }

  /** The viewings at or after the cutoff, in order; all of them without a cutoff. */
  function Fetched(history: seq<Viewing>, cutoff: Option<int>): seq<Viewing> {
    if history == [] then []
    else
      var last := history[|history| - 1];
      Fetched(history[..|history| - 1], cutoff)
      + if cutoff.None? || last.viewedAt >= cutoff.value then [last] else []
  }

  function MaxViewedAt(history: seq<Viewing>): Option<int> {
    if history == [] then None
    else
      var rest := MaxViewedAt(history[..|history| - 1]);
      var last := history[|history| - 1].viewedAt;
      if rest.None? || last > rest.value then Some(last) else rest
  }

  lemma {:induction false} NothingIsLater(history: seq<Viewing>, v: Viewing)
    requires v in history
    ensures MaxViewedAt(history).Some? && v.viewedAt <= MaxViewedAt(history).value
  {
    if v in history[..|history| - 1] {
      NothingIsLater(history[..|history| - 1], v);
    }
  }

  /** The viewing whose time it is. */
  lemma {:induction false} LatestIsSeen(history: seq<Viewing>) returns (v: Viewing)
    requires history != []
    ensures v in history && MaxViewedAt(history) == Some(v.viewedAt)
  {
    var front := history[..|history| - 1];
    v := history[|history| - 1];
    if front != [] && MaxViewedAt(history) != Some(v.viewedAt) {
      v := LatestIsSeen(front);
    }
  }

  // ---- the cache ----

  datatype SyncState = SyncState(formatVersion: Option<int>, lastViewedAt: Option<int>, lastFullSyncAt: Option<int>)

  datatype Cache = Cache(rows: Table, sync: SyncState)

  predicate NeedsFullRebuild(sync: SyncState, now: int) {
    || sync.formatVersion != Some(FORMAT_VERSION)
    || sync.lastViewedAt.None?
    || sync.lastFullSyncAt.None?
    || now >= sync.lastFullSyncAt.value + FULL_REBUILD_INTERVAL
  }

  function Cutoff(sync: SyncState, now: int): Option<int> {
    if NeedsFullRebuild(sync, now) then None else Some(sync.lastViewedAt.value - OVERLAP_WINDOW)
  }

  /**
   A full rebuild is due unless the store is in format 3, has a cursor, and was last rebuilt less than
   seven days (604800 seconds) ago; otherwise a refresh starts one day (86400 seconds) behind the cursor.
   */
  lemma RebuildIsDueIff(sync: SyncState, now: int)
    ensures var current := sync.formatVersion == Some(3) && sync.lastViewedAt.Some?
                           && sync.lastFullSyncAt.Some? && now - sync.lastFullSyncAt.value < 604800;
      && (NeedsFullRebuild(sync, now) <==> !current)
      && (Cutoff(sync, now) == None <==> !current)
      && (current ==> Cutoff(sync, now) == Some(sync.lastViewedAt.value - 86400))
  {
  }

  function Advanced(cursor: Option<int>, maxViewedAt: Option<int>): Option<int> {
    if maxViewedAt.Some? && (cursor.None? || maxViewedAt.value > cursor.value) then maxViewedAt else cursor
  }

  /** One refresh against the history visible at that moment. */
  ghost function Refreshed(c: Cache, history: seq<Viewing>, now: int): Cache {
    var seen := Fetched(history, Cutoff(c.sync, now));
    var cursor := Advanced(c.sync.lastViewedAt, MaxViewedAt(seen));
    var rows := Build(Snapshots(seen));
    if NeedsFullRebuild(c.sync, now) then Cache(rows, SyncState(Some(FORMAT_VERSION), cursor, Some(now)))
    else Cache(Merged(c.rows, rows), c.sync.(lastViewedAt := cursor))
  }

  const UNFILLED: Cache := Cache(map[], SyncState(None, None, None))

  class MediaWatchSnapshotCache {
    var rows: Table
    var sync: SyncState

    ghost function State(): Cache
      reads this
    {
      Cache(rows, sync)
    }

    constructor ()
      ensures State() == UNFILLED
    {
      rows := map[];
      sync := SyncState(None, None, None);
    }

    method RefreshSnapshot(history: seq<Viewing>, now: int)
      modifies this
      ensures State() == Refreshed(old(State()), history, now)
    {
      var needsFullRebuild := NeedsFullRebuild(sync, now);
      var cutoff: Option<int> := None;
      var incrementalMode := false;
      if !needsFullRebuild && sync.lastViewedAt.Some? {
        cutoff := Some(sync.lastViewedAt.value - OVERLAP_WINDOW);
        incrementalMode := true;
      }
      var seen := Fetched(history, cutoff);
      var maxViewedAt := MaxViewedAt(seen);
      if maxViewedAt.Some? && (sync.lastViewedAt.None? || maxViewedAt.value > sync.lastViewedAt.value) {
        sync := sync.(lastViewedAt := maxViewedAt);
      }
      if needsFullRebuild {
        sync := sync.(lastFullSyncAt := Some(now), formatVersion := Some(FORMAT_VERSION));
      }
      var snapshots := MergeHistory(seen);
      var built := BuildWatchRows(snapshots);
      if incrementalMode {
        if built != map[] {
          rows := MergeRows(rows, built);
        } else {
          assert Merged(rows, built) == rows;
        }
      } else {
        rows := built;
      }
    }
  }
}
