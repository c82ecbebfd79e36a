/**
 Refreshing the favourites of one Plex server from its users' watchlists: the rows of the server are
 deleted and inserted again, and users whose watchlist cannot be fetched must keep theirs.
 */
module Favorites {
  import opened AsciiText
  import opened Common
  import opened Listings

  datatype Service = Plex | Jellyfin | Emby

  datatype MediaType = Movie | Series

  /** One configured server. */
  datatype Source = Source(service: Service, config: nat)

  datatype Favorite = Favorite(mediaType: MediaType, tmdbId: nat, username: string, usernameNormalized: string, source: Source)

  datatype Identity = Identity(source: Source, userId: Option<nat>, username: Option<string>, token: Option<string>)

  datatype Watchlist = Watchlist(movies: set<nat>, series: set<nat>)

  /** The columns of the table's unique constraint. */
  datatype Key = Key(mediaType: MediaType, tmdbId: nat, usernameNormalized: string, source: Source)

  function KeyOf(r: Favorite): Key {
    Key(r.mediaType, r.tmdbId, r.usernameNormalized, r.source)
  }

  predicate SharesKey(a: set<Favorite>, b: set<Favorite>) {
    exists x, y :: x in a && y in b && KeyOf(x) == KeyOf(y)
  }

  ghost predicate Unique(table: set<Favorite>) {
    forall x, y :: x in table && y in table && KeyOf(x) == KeyOf(y) ==> x == y
  }

  predicate KeysDistinct(rows: seq<Favorite>) {
    forall i, j :: 0 <= i < j < |rows| ==> KeyOf(rows[i]) != KeyOf(rows[j])
  }

  lemma KeysDistinctConcat(a: seq<Favorite>, b: seq<Favorite>)
    ensures KeysDistinct(a + b) <==> KeysDistinct(a) && KeysDistinct(b) && !SharesKey(Elements(a), Elements(b))
    ensures Elements(a + b) == Elements(a) + Elements(b)
  {
    var c := a + b;
    if KeysDistinct(c) {
      forall i, j | 0 <= i < j < |a| ensures KeyOf(a[i]) != KeyOf(a[j]) {
        assert c[i] == a[i] && c[j] == a[j];
      }
      forall i, j | 0 <= i < j < |b| ensures KeyOf(b[i]) != KeyOf(b[j]) {
        assert c[|a| + i] == b[i] && c[|a| + j] == b[j];
      }
      forall x, y | x in Elements(a) && y in Elements(b) ensures KeyOf(x) != KeyOf(y) {
        var i :| 0 <= i < |a| && a[i] == x;
        var j :| 0 <= j < |b| && b[j] == y;
        assert c[i] == x && c[|a| + j] == y;
      }
    }
    if KeysDistinct(a) && KeysDistinct(b) && !SharesKey(Elements(a), Elements(b)) {
      forall i, j | 0 <= i < j < |c| ensures KeyOf(c[i]) != KeyOf(c[j]) {
        if i < |a| <= j {
          assert c[i] in Elements(a) && c[j] in Elements(b);
        }
      }
    }
  }

  // ---- what is known about the linked users during one refresh ----

  /** The linked identities, how tokens decrypt (None: not encrypted) and what each fetch brings (None: it failed). */
  datatype Refresh = Refresh(
    source: Source,
    linked: seq<Identity>,
    decrypt: string -> Option<string>,
    fetch: nat -> Option<Watchlist>)

  /** Identities of a server that belong to a user and carry a token. */
  function Linked(identities: seq<Identity>, source: Source): seq<Identity> {
    if identities == [] then []
    else
      var id := identities[0];
      (if id.source == source && id.userId.Some? && id.token.Some? then [id] else []) + Linked(identities[1..], source)
  }

  function Username(id: Identity): string {
    if id.username.Some? then StripBlanks(id.username.value) else ""
  }

  function Token(w: Refresh, id: Identity): string {
    var raw := if id.token.Some? then StripBlanks(id.token.value) else "";
    if raw == "" then ""
    else
      var decrypted := w.decrypt(raw);
      StripBlanks(if decrypted.Some? then decrypted.value else raw)
  }

  function Name(w: Refresh, i: nat): string
    requires i < |w.linked|
  {
    AsciiNormalize(Username(w.linked[i]))
  }

  predicate Eligible(w: Refresh, i: nat)
    requires i < |w.linked|
  {
    Name(w, i) != "" && Token(w, w.linked[i]) != ""
  }

  predicate Fetched(w: Refresh, i: nat)
    requires i < |w.linked|
  {
    Eligible(w, i) && w.fetch(i).Some?
  }

  predicate Failed(w: Refresh, i: nat)
    requires i < |w.linked|
  {
    Eligible(w, i) && w.fetch(i).None?
  }

  function RowsFor(mediaType: MediaType, source: Source, username: string, ids: set<nat>): set<Favorite> {
    set id | id in ids :: Favorite(mediaType, id, StripBlanks(username), AsciiNormalize(username), source)
  }

  /** The rows a linked user contributes: the watchlist, when it was fetched. */
  function WatchlistRows(w: Refresh, i: nat): set<Favorite>
    requires i < |w.linked|
  {
    if Fetched(w, i) then
      var name := Username(w.linked[i]);
      RowsFor(Movie, w.source, name, w.fetch(i).value.movies) + RowsFor(Series, w.source, name, w.fetch(i).value.series)
    else {}
  }

  function FreshRows(w: Refresh, n: nat): set<Favorite>
    requires n <= |w.linked|
  {
    if n == 0 then {} else FreshRows(w, n - 1) + WatchlistRows(w, n - 1)
  }

  function FailedNames(w: Refresh, n: nat): set<string>
    requires n <= |w.linked|
  {
    if n == 0 then {} else FailedNames(w, n - 1) + if Failed(w, n - 1) then {Name(w, n - 1)} else {}
  }

  function Successes(w: Refresh, n: nat): nat
    requires n <= |w.linked|
  {
    if n == 0 then 0 else Successes(w, n - 1) + if Fetched(w, n - 1) then 1 else 0
  }

  /** User `j` brings a row with the key of an earlier user's fresh row. */
  ghost predicate Meets(w: Refresh, j: nat)
    requires j < |w.linked|
  {
    SharesKey(FreshRows(w, j), WatchlistRows(w, j))
  }

  ghost predicate Clash(w: Refresh, n: nat)
    requires n <= |w.linked|
  {
    n > 0 && (Clash(w, n - 1) || Meets(w, n - 1))
  }

  function RowsOfSource(table: set<Favorite>, source: Source): set<Favorite> {
    set r | r in table && r.source == source
  }

  function StaleRows(table: set<Favorite>, source: Source, names: set<string>): set<Favorite> {
    set r | r in table && r.source == source && r.usernameNormalized in names
  }

  /** What a refresh answers and leaves behind. None is a violated unique constraint, which rolls everything back. */
  ghost function Refreshed(w: Refresh, table: set<Favorite>): (Option<bool>, set<Favorite>) {
    var n := |w.linked|;
    var stale := StaleRows(table, w.source, FailedNames(w, n));
    if Successes(w, n) == 0 && FailedNames(w, n) != {} then (Some(false), table)
    else if Clash(w, n) || SharesKey(FreshRows(w, n), stale) then (None, table)
    else (Some(true), table - RowsOfSource(table, w.source) + FreshRows(w, n) + stale)
  }

  // ---- who takes part, and with what ----

  lemma {:induction false} LinkedConcat(a: seq<Identity>, b: seq<Identity>, source: Source)
    ensures Linked(a + b, source) == Linked(a, source) + Linked(b, source)
  {
    if a == [] {
      assert a + b == b;
    } else {
      assert (a + b)[1..] == a[1..] + b;
      LinkedConcat(a[1..], b, source);
    }
  }

  /** Exactly the identities of the server that belong to a user and carry a token take part. */
  lemma {:induction false} LinkedIff(identities: seq<Identity>, source: Source, id: Identity)
    ensures id in Linked(identities, source) <==>
      id in identities && id.source == source && id.userId != None && id.token != None
  {
    if identities != [] {
      LinkedIff(identities[1..], source, id);
    }
  }

  /** The token used: the text between the blanks, decrypted when it can be, and stripped again. */
  lemma TokenIff(w: Refresh, id: Identity, left: string, core: string, right: string, left': string, core': string, right': string)
    ensures id.token == None ==> Token(w, id) == ""
    ensures id.token != None && Spells(id.token.value, left, core, right) ==>
      && (core == "" ==> Token(w, id) == "")
      && (w.decrypt(core) == None ==> Token(w, id) == core)
      && (core != "" && w.decrypt(core) != None && Spells(w.decrypt(core).value, left', core', right') ==> Token(w, id) == core')
  {
    if id.token != None && Spells(id.token.value, left, core, right) {
      StripFindsCore(id.token.value, left, core, right);
      CoreOfCore(core);
      if w.decrypt(core) != None && Spells(w.decrypt(core).value, left', core', right') {
        StripFindsCore(w.decrypt(core).value, left', core', right');
      }
    }
  }

  lemma CoreOfCore(core: string)
    requires core != [] ==> !AllBlank([core[0]]) && !AllBlank([core[|core| - 1]])
    ensures StripBlanks(core) == core
  {
    assert core == [] + core + [];
    StripFindsCore(core, [], core, []);
  }

  /** A name is the text between the blanks in lower case, and counts when it is not empty. */
  lemma NameIs(w: Refresh, i: nat, left: string, core: string, right: string)
    requires i < |w.linked|
    ensures w.linked[i].username == None ==> Name(w, i) == "" && !Eligible(w, i)
    ensures w.linked[i].username != None && Spells(w.linked[i].username.value, left, core, right) ==>
      && Username(w.linked[i]) == core && Name(w, i) == Lower(core)
      && (Eligible(w, i) <==> core != "" && Token(w, w.linked[i]) != "")
  {
    if w.linked[i].username != None && Spells(w.linked[i].username.value, left, core, right) {
      StripFindsCore(w.linked[i].username.value, left, core, right);
      CoreOfCore(core);
      assert |Lower(core)| == |core|;
    }
  }

  /** Two users share a normalised name exactly when their names are spelled alike up to blanks and case. */
  lemma NamesMeetIff(w: Refresh, i: nat, j: nat)
    requires i < |w.linked| && j < |w.linked| && w.linked[i].username.Some? && w.linked[j].username.Some?
    ensures Name(w, i) == Name(w, j) <==> SameCore(w.linked[i].username.value, w.linked[j].username.value)
  {
    var a, b := w.linked[i].username.value, w.linked[j].username.value;
    var la, ra := StripSplits(a);
    var lb, rb := StripSplits(b);
    CoreOfCore(StripBlanks(a));
    CoreOfCore(StripBlanks(b));
    NormalizeIff(a, b);
  }

  /** The rows of a fetched watchlist: its movies and its series, under the user's name. */
  lemma WatchlistRowsIff(w: Refresh, i: nat, r: Favorite, left: string, core: string, right: string)
    requires i < |w.linked| && w.linked[i].username.Some? && Spells(w.linked[i].username.value, left, core, right)
    ensures r in WatchlistRows(w, i) <==>
      && core != "" && Token(w, w.linked[i]) != "" && w.fetch(i) != None
      && r.source == w.source && r.username == core && r.usernameNormalized == Lower(core)
      && match r.mediaType
         case Movie => r.tmdbId in w.fetch(i).value.movies
         case Series => r.tmdbId in w.fetch(i).value.series
  {
    NameIs(w, i, left, core, right);
    CoreOfCore(core);
  }

  // ---- the refresh itself ----

  /** The rows of one media type for one user; a user without a name gets none. */
  method BuildFavoriteRows(mediaType: MediaType, source: Source, username: string, ids: set<nat>) returns (rows: seq<Favorite>)
    ensures Elements(rows) == (if AsciiNormalize(username) == "" then {} else RowsFor(mediaType, source, username, ids))
    ensures KeysDistinct(rows)
  {
    var normalized := AsciiNormalize(username);
    if normalized == "" {
      return [];
    }
    var listed := Listed(ids);
    rows := [];
    for i := 0 to |listed|
      invariant |rows| == i
      invariant forall k :: 0 <= k < i ==> rows[k] == Favorite(mediaType, listed[k], StripBlanks(username), normalized, source)
    {
      rows := rows + [Favorite(mediaType, listed[i], StripBlanks(username), normalized, source)];
    }
    forall r ensures r in Elements(rows) <==> r in RowsFor(mediaType, source, username, ids) {
      if r in RowsFor(mediaType, source, username, ids) {
        assert r.tmdbId in Elements(listed);
        var k :| 0 <= k < |listed| && listed[k] == r.tmdbId;
        assert rows[k] == r;
      }
      if r in Elements(rows) {
        var k :| 0 <= k < |rows| && rows[k] == r;
        assert listed[k] in Elements(listed);
      }
    }
  }

  /** All linked users in turn: their fresh rows, who failed and how many succeeded. */
  method CollectWatchlists(w: Refresh) returns (rows: seq<Favorite>, failedUsernames: set<string>, successfulUsers: nat)
    ensures var n := |w.linked|;
      && Elements(rows) == FreshRows(w, n) && (KeysDistinct(rows) <==> !Clash(w, n))
      && failedUsernames == FailedNames(w, n) && successfulUsers == Successes(w, n)
  {
    rows, failedUsernames, successfulUsers := [], {}, 0;
    for i := 0 to |w.linked|
      invariant Elements(rows) == FreshRows(w, i) && (KeysDistinct(rows) <==> !Clash(w, i))
      invariant failedUsernames == FailedNames(w, i) && successfulUsers == Successes(w, i)
    {
      if Eligible(w, i) {
        var watchlist := w.fetch(i);
        if watchlist.None? {
          failedUsernames := failedUsernames + {Name(w, i)};
          assert WatchlistRows(w, i) == {};
        } else {
          var theirs := RowsOfWatchlist(w.source, Username(w.linked[i]), watchlist.value);
          KeysDistinctConcat(rows, theirs);
          rows := rows + theirs;
          successfulUsers := successfulUsers + 1;
        }
      }
    }
  }

  method RowsOfWatchlist(source: Source, username: string, watchlist: Watchlist) returns (rows: seq<Favorite>)
    requires AsciiNormalize(username) != ""
    ensures Elements(rows) == RowsFor(Movie, source, username, watchlist.movies) + RowsFor(Series, source, username, watchlist.series)
    ensures KeysDistinct(rows)
  {
    var movies, series := [], [];
    if watchlist.movies != {} {
      movies := BuildFavoriteRows(Movie, source, username, watchlist.movies);
    }
    if watchlist.series != {} {
      series := BuildFavoriteRows(Series, source, username, watchlist.series);
    }
    KeysDistinctConcat(movies, series);
    rows := movies + series;
  }

  lemma {:induction false} RowsCarryTheSource(w: Refresh, n: nat)
    requires n <= |w.linked|
    ensures forall r :: r in FreshRows(w, n) ==> r.source == w.source
    ensures Successes(w, n) == 0 ==> FreshRows(w, n) == {} && !Clash(w, n)
  {
    if n > 0 {
      RowsCarryTheSource(w, n - 1);
    }
  }

  /** With no usable identity at all, the rows of the server go; with only failures, nothing changes. */
  lemma NobodyEligibleClears(w: Refresh, table: set<Favorite>)
    requires Successes(w, |w.linked|) == 0
    ensures Refreshed(w, table) ==
      if FailedNames(w, |w.linked|) == {} then (Some(true), table - RowsOfSource(table, w.source)) else (Some(false), table)
  {
    RowsCarryTheSource(w, |w.linked|);
    if FailedNames(w, |w.linked|) == {} {
      assert StaleRows(table, w.source, {}) == {};
    }
  }

  lemma StaleKeysAreDistinct(table: set<Favorite>, source: Source, names: set<string>, listed: seq<Favorite>)
    requires Unique(table) && Distinct(listed) && Elements(listed) == StaleRows(table, source, names)
    ensures KeysDistinct(listed)
  {
    forall i, j | 0 <= i < j < |listed| ensures KeyOf(listed[i]) != KeyOf(listed[j]) {
      assert listed[i] in Elements(listed) && listed[j] in Elements(listed);
    }
  }

  class FavoritesTable {
    var rows: set<Favorite>

    constructor ()
      ensures rows == {} && Unique(rows)
    {
      rows := {};
    }

    method DeleteRowsOf(source: Source)
      modifies this
      ensures rows == old(rows) - RowsOfSource(old(rows), source)
    {
      rows := rows - RowsOfSource(rows, source);
    }

    /** Inserts all rows, or none when the unique constraint would be violated. */
    method AddAll(added: seq<Favorite>) returns (ok: bool)
      modifies this
      ensures ok <==> KeysDistinct(added) && !SharesKey(old(rows), Elements(added))
      ensures rows == if ok then old(rows) + Elements(added) else old(rows)
    {
      ok := KeysDistinct(added) && !SharesKey(rows, Elements(added));
      if ok {
        rows := rows + Elements(added);
      }
    }

    /** Replaces the rows of a server; a violated constraint rolls the whole transaction back. */
    method Replace(source: Source, added: seq<Favorite>) returns (ok: bool)
      requires forall r :: r in Elements(added) ==> r.source == source
      modifies this
      ensures ok <==> KeysDistinct(added)
      ensures rows == if ok then old(rows) - RowsOfSource(old(rows), source) + Elements(added) else old(rows)
    {
      var saved := rows;
      DeleteRowsOf(source);
      ok := true;
      if added != [] {
        ok := AddAll(added);
        if !ok {
          rows := saved;
        }
      }
    }

    /** Fresh rows, and the stale rows of users whose fetch failed, in place of the old rows of the server. */
    method KeepStaleAndReplace(source: Source, fetched: seq<Favorite>, failedUsernames: set<string>) returns (ok: bool)
      requires Unique(rows) && forall r :: r in Elements(fetched) ==> r.source == source
      modifies this
      ensures var stale := StaleRows(old(rows), source, failedUsernames);
        && (ok <==> KeysDistinct(fetched) && !SharesKey(Elements(fetched), stale))
        && rows == if ok then old(rows) - RowsOfSource(old(rows), source) + Elements(fetched) + stale else old(rows)
    {
      var added := fetched;
      if failedUsernames != {} {
        var staleRows := Listed(StaleRows(rows, source, failedUsernames));
        StaleKeysAreDistinct(rows, source, failedUsernames, staleRows);
        KeysDistinctConcat(added, staleRows);
        added := added + staleRows;
      } else {
        assert StaleRows(rows, source, failedUsernames) == {};
      }
      ok := Replace(source, added);
    }

    method RefreshPlexWatchlistSnapshotForConfig(
        identities: seq<Identity>, source: Source, decrypt: string -> Option<string>, fetch: nat -> Option<Watchlist>)
      returns (result: Option<bool>)
      requires Unique(rows)
      modifies this
      ensures (result, rows) == Refreshed(Refresh(source, Linked(identities, source), decrypt, fetch), old(rows))
    {
      var w := Refresh(source, Linked(identities, source), decrypt, fetch);
      if w.linked == [] {
        NobodyEligibleClears(w, rows);
        DeleteRowsOf(source);
        return Some(true);
      }
      var fetched, failedUsernames, successfulUsers := CollectWatchlists(w);
      if successfulUsers == 0 {
        NobodyEligibleClears(w, rows);
        if failedUsernames != {} {
          return Some(false);
        }
        DeleteRowsOf(source);
        return Some(true);
      }
      RowsCarryTheSource(w, |w.linked|);
      var ok := KeepStaleAndReplace(source, fetched, failedUsernames);
      result := if ok then Some(true) else None;
    }
  }

  // ---- what a refresh achieves ----

  /** No two linked users with a name and a token have the same normalised name. */
  ghost predicate DistinctNames(w: Refresh) {
    forall i, j :: 0 <= i < j < |w.linked| && Eligible(w, i) && Eligible(w, j) ==> Name(w, i) != Name(w, j)
  }

  lemma {:induction false} FailedNamesAre(w: Refresh, n: nat, name: string)
    requires n <= |w.linked|
    ensures name in FailedNames(w, n) <==> exists i :: 0 <= i < n && Failed(w, i) && Name(w, i) == name
  {
    if n > 0 {
      FailedNamesAre(w, n - 1, name);
    }
  }

  lemma {:induction false} FreshRowsAre(w: Refresh, n: nat, r: Favorite)
    requires n <= |w.linked|
    ensures r in FreshRows(w, n) <==> exists i :: 0 <= i < n && r in WatchlistRows(w, i)
  {
    if n > 0 {
      FreshRowsAre(w, n - 1, r);
    }
  }

  lemma WatchlistRowsCarryTheName(w: Refresh, i: nat, r: Favorite)
    requires i < |w.linked| && r in WatchlistRows(w, i)
    ensures Fetched(w, i) && r.usernameNormalized == Name(w, i) && r.source == w.source
  {
  }

  /** Whose fresh row it is. */
  lemma {:induction false} FreshRowOwner(w: Refresh, n: nat, r: Favorite) returns (i: nat)
    requires n <= |w.linked| && r in FreshRows(w, n)
    ensures i < n && Fetched(w, i) && r.usernameNormalized == Name(w, i)
  {
    if r in WatchlistRows(w, n - 1) {
      WatchlistRowsCarryTheName(w, n - 1, r);
      i := n - 1;
    } else {
      i := FreshRowOwner(w, n - 1, r);
    }
  }

  lemma DistinctNamesNeverMeet(w: Refresh, j: nat)
    requires j < |w.linked| && DistinctNames(w)
    ensures !Meets(w, j)
  {
    forall x, y | x in FreshRows(w, j) && y in WatchlistRows(w, j) ensures KeyOf(x) != KeyOf(y) {
      var i := FreshRowOwner(w, j, x);
      WatchlistRowsCarryTheName(w, j, y);
    }
  }

  /** Distinct names keep fresh rows apart from each other and from the rows of failed users. */
  lemma DistinctNamesNeverClash(w: Refresh, n: nat)
    requires n <= |w.linked| && DistinctNames(w)
    ensures !Clash(w, n)
  {
    if Clash(w, n) {
      var j := ClashWitness(w, n);
      DistinctNamesNeverMeet(w, j);
      assert false;
    }
  }

  lemma FreshRowsAreNotStale(w: Refresh, table: set<Favorite>)
    requires DistinctNames(w)
    ensures var n := |w.linked|; !SharesKey(FreshRows(w, n), StaleRows(table, w.source, FailedNames(w, n)))
  {
    var n := |w.linked|;
    forall x, y | x in FreshRows(w, n) && y in StaleRows(table, w.source, FailedNames(w, n)) ensures KeyOf(x) != KeyOf(y) {
      var i := FreshRowOwner(w, n, x);
      FailedNamesAre(w, n, y.usernameNormalized);
      var j :| 0 <= j < n && Failed(w, j) && Name(w, j) == y.usernameNormalized;
    }
  }

  /**
   With distinct names, a refresh in which some fetch worked never violates the constraint, and
   afterwards the table holds exactly: the rows of other servers, the old rows of every user whose
   fetch failed, and the fresh watchlist of every other.
   */
  lemma RefreshTreatsEveryUserAlone(w: Refresh, table: set<Favorite>, r: Favorite)
    requires DistinctNames(w) && Successes(w, |w.linked|) > 0
    ensures var (result, after) := Refreshed(w, table);
      && result == Some(true)
      && (r in after <==>
            || (r in table && r.source != w.source)
            || (r in table && r.source == w.source && exists i :: 0 <= i < |w.linked| && Failed(w, i) && Name(w, i) == r.usernameNormalized)
            || (exists i :: 0 <= i < |w.linked| && r in WatchlistRows(w, i)))
  {
    var n := |w.linked|;
    DistinctNamesNeverClash(w, n);
    FreshRowsAreNotStale(w, table);
    FreshRowsAre(w, n, r);
    FailedNamesAre(w, n, r.usernameNormalized);
  }

  /** Seen from one user: a failed fetch keeps exactly the old rows, a fetched watchlist replaces them entirely. */
  lemma EachUserKeepsOrIsReplaced(w: Refresh, table: set<Favorite>, i: nat, r: Favorite)
    requires DistinctNames(w) && Successes(w, |w.linked|) > 0
    requires i < |w.linked| && Eligible(w, i) && r.source == w.source && r.usernameNormalized == Name(w, i)
    ensures r in Refreshed(w, table).1 <==> if Failed(w, i) then r in table else r in WatchlistRows(w, i)
  {
    RefreshTreatsEveryUserAlone(w, table, r);
    if j :| 0 <= j < |w.linked| && r in WatchlistRows(w, j) {
      WatchlistRowsCarryTheName(w, j, r);
    }
  }

  lemma {:induction false} UnionIsUnique(a: set<Favorite>, b: set<Favorite>)
    requires Unique(a) && Unique(b) && !SharesKey(a, b)
    ensures Unique(a + b)
  {
  }

  lemma {:induction false} FreshRowsAreUnique(w: Refresh, n: nat)
    requires n <= |w.linked| && !Clash(w, n)
    ensures Unique(FreshRows(w, n))
  {
    if n > 0 {
      FreshRowsAreUnique(w, n - 1);
      UnionIsUnique(FreshRows(w, n - 1), WatchlistRows(w, n - 1));
    }
  }

  /** Every refresh, with shared names or without, keeps the unique constraint and the rows of other servers. */
  lemma RefreshKeepsTheTableSound(w: Refresh, table: set<Favorite>)
    requires Unique(table)
    ensures Unique(Refreshed(w, table).1)
    ensures forall r: Favorite :: r.source != w.source ==> (r in Refreshed(w, table).1 <==> r in table)
    ensures Refreshed(w, table).0 != Some(true) ==> Refreshed(w, table).1 == table
  {
    var n := |w.linked|;
    RowsCarryTheSource(w, n);
    var stale := StaleRows(table, w.source, FailedNames(w, n));
    if Refreshed(w, table).0 == Some(true) {
      FreshRowsAreUnique(w, n);
      UnionIsUnique(FreshRows(w, n), stale);
      var others := table - RowsOfSource(table, w.source);
      UnionIsUnique(others, FreshRows(w, n) + stale);
      assert others + FreshRows(w, n) + stale == others + (FreshRows(w, n) + stale);
    }
  }

  lemma SharesKeyUnion(a: set<Favorite>, b: set<Favorite>, c: set<Favorite>)
    ensures SharesKey(a + b, c) <==> SharesKey(a, c) || SharesKey(b, c)
  {
  }

  lemma {:induction false} FreshRowsShareIff(w: Refresh, n: nat, c: set<Favorite>)
    requires n <= |w.linked|
    ensures SharesKey(FreshRows(w, n), c) <==> exists i :: 0 <= i < n && SharesKey(WatchlistRows(w, i), c)
  {
    if n > 0 {
      FreshRowsShareIff(w, n - 1, c);
      SharesKeyUnion(FreshRows(w, n - 1), WatchlistRows(w, n - 1), c);
    }
  }

  lemma {:induction false} ClashWitness(w: Refresh, n: nat) returns (j: nat)
    requires n <= |w.linked| && Clash(w, n)
    ensures j < n && Meets(w, j)
  {
    if Clash(w, n - 1) {
      j := ClashWitness(w, n - 1);
    } else {
      j := n - 1;
    }
  }

  lemma {:induction false} MeetingClashes(w: Refresh, n: nat, j: nat)
    requires j < n <= |w.linked| && Meets(w, j)
    ensures Clash(w, n)
  {
    if j < n - 1 {
      MeetingClashes(w, n - 1, j);
    }
  }

  lemma ClashIff(w: Refresh, n: nat)
    requires n <= |w.linked|
    ensures Clash(w, n) <==> exists i, j :: 0 <= i < j < n && SharesKey(WatchlistRows(w, i), WatchlistRows(w, j))
  {
    if Clash(w, n) {
      var j := ClashWitness(w, n);
      FreshRowsShareIff(w, j, WatchlistRows(w, j));
    }
    if i, j :| 0 <= i < j < n && SharesKey(WatchlistRows(w, i), WatchlistRows(w, j)) {
      FreshRowsShareIff(w, j, WatchlistRows(w, j));
      MeetingClashes(w, n, j);
    }
  }

  /**
   When names are not distinct: the refresh fails on the unique constraint exactly when two users
   bring the same title under the same normalised name, or one brings a title another user, whose
   fetch failed, already had under that name. In every other case the refresh goes through.
   */
  lemma RefreshFailsIff(w: Refresh, table: set<Favorite>)
    ensures Refreshed(w, table).0.None? <==>
      || (exists i, j :: 0 <= i < j < |w.linked| && SharesKey(WatchlistRows(w, i), WatchlistRows(w, j)))
      || (exists i :: 0 <= i < |w.linked| && SharesKey(WatchlistRows(w, i), StaleRows(table, w.source, FailedNames(w, |w.linked|))))
  {
    var n := |w.linked|;
    var stale := StaleRows(table, w.source, FailedNames(w, n));
    ClashIff(w, n);
    RowsCarryTheSource(w, n);
    FreshRowsShareIff(w, n, stale);
    if Clash(w, n) || SharesKey(FreshRows(w, n), stale) {
      assert Successes(w, n) > 0;
    }
  }

  /** So two users whose names differ only in case and who share a movie make every refresh fail. */
  lemma SharedNameAndMovieFail(w: Refresh, table: set<Favorite>, i: nat, j: nat, movie: nat)
    requires i < j < |w.linked| && Fetched(w, i) && Fetched(w, j) && Name(w, i) == Name(w, j)
    requires movie in w.fetch(i).value.movies && movie in w.fetch(j).value.movies
    ensures Refreshed(w, table) == (None, table)
  {
    var a, b := Username(w.linked[i]), Username(w.linked[j]);
    var x := Favorite(Movie, movie, StripBlanks(a), AsciiNormalize(a), w.source);
    var y := Favorite(Movie, movie, StripBlanks(b), AsciiNormalize(b), w.source);
    assert x in WatchlistRows(w, i) && y in WatchlistRows(w, j);
    assert KeyOf(x) == KeyOf(y);
    assert SharesKey(WatchlistRows(w, i), WatchlistRows(w, j));
    RefreshFailsIff(w, table);
  }

  /** Two linked users, "ann" and "ANN", who both have movie 7 on their watchlists. */
  const ANN_TWICE: Refresh := Refresh(
    Source(Plex, 1),
    [Identity(Source(Plex, 1), Some(1), Some("ann"), Some("t")), Identity(Source(Plex, 1), Some(2), Some("ANN"), Some("u"))],
    token => None,
    i => Some(Watchlist({7}, {})))

  lemma AnnTwiceIsFetched()
    ensures Fetched(ANN_TWICE, 0) && Fetched(ANN_TWICE, 1) && Name(ANN_TWICE, 0) == "ann" && Name(ANN_TWICE, 1) == "ann"
  {
    assert StripBlanks("ann") == "ann" && StripBlanks("ANN") == "ANN" && StripBlanks("t") == "t" && StripBlanks("u") == "u";
    assert Lower("ann") == "ann" && Lower("ANN") == "ann";
    assert AsciiNormalize(StripBlanks("ann")) == "ann" && AsciiNormalize(StripBlanks("ANN")) == "ann";
    assert Token(ANN_TWICE, ANN_TWICE.linked[0]) == "t" && Token(ANN_TWICE, ANN_TWICE.linked[1]) == "u";
  }

  lemma AnnTwiceFails(table: set<Favorite>)
    ensures Refreshed(ANN_TWICE, table) == (None, table)
  {
    AnnTwiceIsFetched();
    SharedNameAndMovieFail(ANN_TWICE, table, 0, 1, 7);
  }
}
