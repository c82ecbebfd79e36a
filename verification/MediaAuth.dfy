/**
 Signing in with a media-server account: linking the identity to a local user, or creating one.

 The tables are a map of users (by primary key) and a list of identity rows. SQL `lower` and Python
 `lower` are the same ASCII mapping here. Notices, tokens and display fields are left out.
 */
module MediaAuth {
  import opened AsciiText
  import opened Common
  import opened Usernames

  datatype User = User(username: string, email: Option<string>)

  /** What the identity table's unique constraint is about. */
  datatype IdentityKey = IdentityKey(service: string, configId: int, sourceUserId: string)

  datatype Identity = Identity(key: IdentityKey, username: string, email: Option<string>,
                               userId: Option<nat>, lastSeenAt: int, linkedAt: Option<int>)

  /** An account as the media server reports it. */
  datatype DiscoveredUser = DiscoveredUser(key: IdentityKey, username: string, usernameNormalized: string,
                                           email: Option<string>)

  datatype Store = Store(users: map<nat, User>, identities: seq<Identity>)

  datatype Outcome = SignedIn(userId: nat) | Created(userId: nat) | Conflict(userIds: set<nat>)

  /** At most one row per service, configuration and source user. */
  ghost predicate UniqueKeys(rows: seq<Identity>) {
    forall i, j :: 0 <= i < j < |rows| ==> rows[i].key != rows[j].key
  }

  function RowIndex(rows: seq<Identity>, key: IdentityKey): nat {
    FirstIndex(rows, (r: Identity) => r.key == key)
  }

  /** The row of a key, when there is one. */
  function RowOf(rows: seq<Identity>, key: IdentityKey): Option<Identity> {
    var i := RowIndex(rows, key);
    if i < |rows| then Some(rows[i]) else None
  }

  /** The user a key is linked to. */
  function LinkOf(rows: seq<Identity>, key: IdentityKey): Option<nat> {
    var row := RowOf(rows, key);
    if row.Some? then row.value.userId else None
  }

  ghost function Upserted(rows: seq<Identity>, item: DiscoveredUser, userId: Option<nat>, preserve: bool, now: int): seq<Identity> {
    var i := RowIndex(rows, item.key);
    if i == |rows| then
      rows + [Identity(item.key, item.username, item.email, userId, now, if userId.Some? then Some(now) else None)]
    else
      var row := rows[i];
      rows[i := Identity(row.key, item.username, item.email, if preserve then row.userId else userId, now,
                         if userId.Some? && row.linkedAt.None? then Some(now) else row.linkedAt)]
  }

  function WithEmail(users: map<nat, User>, email: string): set<nat> {
    set id | id in users && users[id].email.Some? && Lower(users[id].email.value) == Lower(email)
  }

  function WithUsername(users: map<nat, User>, normalized: string): set<nat> {
    set id | id in users && Lower(users[id].username) == normalized
  }

  function UsedUsernames(users: map<nat, User>): set<string> {
    set id | id in users :: AsciiNormalize(users[id].username)
  }

  /** The part of an address before the first "@". */
  function LocalPart(email: string): string {
    email[..FirstIndex(email, c => c == '@')]
  }

  function DesiredUsername(item: DiscoveredUser): string {
    if HasEmail(item) then LocalPart(item.email.value) else item.username
  }

  /** An empty address counts as none. */
  predicate HasEmail(item: DiscoveredUser) {
    item.email.Some? && item.email.value != []
  }

  // ---- the decision ----

  datatype Candidates = NoUser | OneUser(id: nat) | SeveralUsers(ids: set<nat>)

  ghost function Classify(ids: set<nat>): Candidates {
    if ids == {} then NoUser
    else if |ids| == 1 then (var id :| id in ids; OneUser(id))
    else SeveralUsers(ids)
  }

  /** Whom a login resolves to: the linked user if it still exists, then by address, then by name. */
  ghost function Resolved(s: Store, item: DiscoveredUser): Candidates {
    var link := LinkOf(s.identities, item.key);
    if link.Some? && link.value in s.users then OneUser(link.value)
    else
      var byEmail := if HasEmail(item) then Classify(WithEmail(s.users, item.email.value)) else NoUser;
      if byEmail != NoUser then byEmail else Classify(WithUsername(s.users, item.usernameNormalized))
  }

  /** A login at `now`; `newId` is the key the database would give a new user. */
  ghost function Login(s: Store, item: DiscoveredUser, alnum: char -> bool, now: int, newId: nat): (Store, Outcome) {
    match Resolved(s, item)
    case OneUser(id) => (s.(identities := Upserted(s.identities, item, Some(id), false, now)), SignedIn(id))
    case SeveralUsers(ids) => (s.(identities := Upserted(s.identities, item, None, true, now)), Conflict(ids))
    case NoUser =>
      AsciiNormalizeKeepsSuffix();
      var name := UniqueUsername(DesiredUsername(item), UsedUsernames(s.users), alnum, AsciiNormalize);
      (Store(s.users[newId := User(name, item.email)], Upserted(s.identities, item, Some(newId), false, now)), Created(newId))
  }

  // ---- the tables, changed in place ----

  class AccountTables {
    var users: map<nat, User>
    var identities: seq<Identity>

    ghost function State(): Store
      reads this
    {
      Store(users, identities)
    }

    constructor ()
      ensures State() == Store(map[], [])
    {
      users := map[];
      identities := [];
    }

    method UpsertMediaIdentity(item: DiscoveredUser, userId: Option<nat>, preserveUserId: bool, now: int)
      modifies this`identities
      ensures identities == Upserted(old(identities), item, userId, preserveUserId, now)
    {
      var i := RowIndex(identities, item.key);
      if i == |identities| {
        var linkedAt := if userId.Some? then Some(now) else None;
        identities := identities + [Identity(item.key, item.username, item.email, userId, now, linkedAt)];
        return;
      }
      var row := identities[i];
      if !preserveUserId {
        row := row.(userId := userId);
      }
      row := row.(username := item.username, email := item.email, lastSeenAt := now);
      if userId.Some? && row.linkedAt.None? {
        row := row.(linkedAt := Some(now));
      }
      identities := identities[i := row];
    }

    method ResolveOrCreateUserForIdentity(item: DiscoveredUser, alnum: char -> bool, now: int, newId: nat)
      returns (outcome: Outcome)
      requires newId !in users
      modifies this
      ensures (State(), outcome) == Login(old(State()), item, alnum, now, newId)
    {
      var link := LinkOf(identities, item.key);
      if link.Some? && link.value in users {
        UpsertMediaIdentity(item, link, false, now);
        return SignedIn(link.value);
      }
      if HasEmail(item) {
        var byEmail := WithEmail(users, item.email.value);
        if |byEmail| == 1 {
          var id := OnlyMember(byEmail);
          UpsertMediaIdentity(item, Some(id), false, now);
          return SignedIn(id);
        }
        if |byEmail| > 1 {
          UpsertMediaIdentity(item, None, true, now);
          return Conflict(byEmail);
        }
      }
      var byName := WithUsername(users, item.usernameNormalized);
      if |byName| == 1 {
        var id := OnlyMember(byName);
        UpsertMediaIdentity(item, Some(id), false, now);
        return SignedIn(id);
      }
      if |byName| > 1 {
        UpsertMediaIdentity(item, None, true, now);
        return Conflict(byName);
      }
      AsciiNormalizeKeepsSuffix();
      var name := SafeUniqueUsername(DesiredUsername(item), UsedUsernames(users), alnum, AsciiNormalize);
      users := users[newId := User(name, item.email)];
      UpsertMediaIdentity(item, Some(newId), false, now);
      outcome := Created(newId);
    }
  }

  method OnlyMember(ids: set<nat>) returns (id: nat)
    requires |ids| == 1
    ensures Classify(ids) == OneUser(id)
  {
    assert ids != {};
    id :| id in ids;
    assert |ids - {id}| == 0;
    assert forall x :: x in ids ==> x == id;
  }

  // ---- one login ----

  /** Writing one row leaves every other key's row alone and keeps keys unique. */
  lemma UpsertTouchesOneKey(rows: seq<Identity>, item: DiscoveredUser, userId: Option<nat>, preserve: bool, now: int)
    requires UniqueKeys(rows)
    ensures var rows' := Upserted(rows, item, userId, preserve, now);
      && UniqueKeys(rows')
      && LinkOf(rows', item.key) == (if preserve && RowOf(rows, item.key).Some? then LinkOf(rows, item.key) else userId)
      && forall key :: key != item.key ==> RowOf(rows', key) == RowOf(rows, key)
  {
    var rows' := Upserted(rows, item, userId, preserve, now);
    var i := RowIndex(rows, item.key);
    assert |rows| <= |rows'| && rows'[i].key == item.key;
    assert forall k :: 0 <= k < |rows| && k != i ==> rows'[k] == rows[k];
    assert RowIndex(rows', item.key) == i;
    forall key | key != item.key ensures RowOf(rows', key) == RowOf(rows, key) {
      var k := RowIndex(rows, key);
      var k' := RowIndex(rows', key);
      if k < |rows| {
        assert k' == k;
      } else {
        assert k' == |rows'|;
      }
    }
  }

  /** The row of a key is one with that key, and there is none exactly when no row has it. */
  lemma RowOfIff(rows: seq<Identity>, key: IdentityKey)
    ensures RowOf(rows, key) == None <==> forall i :: 0 <= i < |rows| ==> rows[i].key != key
    ensures RowOf(rows, key) != None ==> exists i :: 0 <= i < |rows| && rows[i].key == key && RowOf(rows, key) == Some(rows[i])
    ensures UniqueKeys(rows) ==> forall i :: 0 <= i < |rows| && rows[i].key == key ==> RowOf(rows, key) == Some(rows[i])
  {
  }

  /**
   What is written: name, address and time of the login, the link asked for or the one to preserve,
   and the time of the first link.
   */
  lemma UpsertedRow(rows: seq<Identity>, item: DiscoveredUser, userId: Option<nat>, preserve: bool, now: int)
    ensures var before, after := RowOf(rows, item.key), RowOf(Upserted(rows, item, userId, preserve, now), item.key);
      && after.Some?
      && after.value.username == item.username && after.value.email == item.email && after.value.lastSeenAt == now
      && (before.None? ==> after.value.userId == userId && (after.value.linkedAt == if userId.Some? then Some(now) else None))
      && (before.Some? ==>
            && after.value.userId == (if preserve then before.value.userId else userId)
            && (before.value.linkedAt.Some? || userId.None? ==> after.value.linkedAt == before.value.linkedAt)
            && (before.value.linkedAt.None? && userId.Some? ==> after.value.linkedAt == Some(now)))
  {
    var rows' := Upserted(rows, item, userId, preserve, now);
    var i := RowIndex(rows, item.key);
    assert rows'[i].key == item.key && forall k :: 0 <= k < i ==> rows'[k] == rows[k];
    assert RowIndex(rows', item.key) == i;
  }

  /** Table invariant: unique keys, and links that lead to users. */
  ghost predicate Consistent(s: Store) {
    && UniqueKeys(s.identities)
    && forall i :: 0 <= i < |s.identities| && s.identities[i].userId.Some? ==> s.identities[i].userId.value in s.users
  }

  lemma LinksResolve(s: Store, key: IdentityKey)
    requires Consistent(s)
    ensures LinkOf(s.identities, key).Some? ==> LinkOf(s.identities, key).value in s.users
  {
  }

  lemma ClassifyMembers(ids: set<nat>)
    ensures Classify(ids).OneUser? ==> Classify(ids).id in ids
    ensures Classify(ids) == NoUser <==> ids == {}
  {
  }

  lemma LoginKeepsConsistent(s: Store, item: DiscoveredUser, alnum: char -> bool, now: int, newId: nat)
    requires Consistent(s) && newId !in s.users
    ensures Consistent(Login(s, item, alnum, now, newId).0)
  {
    var s' := Login(s, item, alnum, now, newId).0;
    UpsertTouchesOneKey(s.identities, item, None, true, now);
    if HasEmail(item) {
      ClassifyMembers(WithEmail(s.users, item.email.value));
    }
    ClassifyMembers(WithUsername(s.users, item.usernameNormalized));
    match Resolved(s, item)
    case OneUser(id) => UpsertTouchesOneKey(s.identities, item, Some(id), false, now);
    case SeveralUsers(_) =>
    case NoUser => UpsertTouchesOneKey(s.identities, item, Some(newId), false, now);
  }

  // ---- whom a login finds ----

  /** No row links the identity to a user that exists. */
  ghost predicate LinkIsDead(s: Store, item: DiscoveredUser) {
    forall i :: 0 <= i < |s.identities| && s.identities[i].key == item.key ==>
      s.identities[i].userId.None? || s.identities[i].userId.value !in s.users
  }

  /** The user's address is the one reported, in any case of its letters. */
  ghost predicate HasAddress(user: User, item: DiscoveredUser) {
    item.email.Some? && |item.email.value| > 0 && user.email.Some? && SameLetters(user.email.value, item.email.value)
  }

  /** The user's name, in lower case, is the normalised one reported. */
  ghost predicate HasName(user: User, item: DiscoveredUser) {
    SameLetters(user.username, item.usernameNormalized) && !HasCapital(item.usernameNormalized)
  }

  lemma AddressesFound(s: Store, item: DiscoveredUser, byAddress: set<nat>)
    requires forall id :: id in byAddress <==> id in s.users && HasAddress(s.users[id], item)
    ensures byAddress == if HasEmail(item) then WithEmail(s.users, item.email.value) else {}
  {
    if HasEmail(item) {
      forall id | id in s.users ensures id in byAddress <==> id in WithEmail(s.users, item.email.value) {
        if s.users[id].email.Some? {
          LowerIff(s.users[id].email.value, item.email.value);
        }
      }
    }
  }

  lemma NamesFound(s: Store, item: DiscoveredUser, byName: set<nat>)
    requires forall id :: id in byName <==> id in s.users && HasName(s.users[id], item)
    ensures byName == WithUsername(s.users, item.usernameNormalized)
  {
    forall id | id in s.users ensures id in byName <==> id in WithUsername(s.users, item.usernameNormalized) {
      LowerIs(s.users[id].username, item.usernameNormalized);
    }
  }

  lemma ClassifyByNumber(ids: set<nat>)
    ensures Classify(ids) == NoUser <==> |ids| == 0
    ensures forall id :: ids == {id} ==> Classify(ids) == OneUser(id)
    ensures |ids| > 1 ==> Classify(ids) == SeveralUsers(ids)
    ensures |ids| == 1 ==> exists id :: ids == {id}
  {
    if |ids| == 1 {
      var id :| id in ids;
      assert |ids - {id}| == 0;
      assert ids == {id};
    }
  }

  lemma ResolvedByNumber(s: Store, item: DiscoveredUser, byAddress: set<nat>, byName: set<nat>)
    requires LinkIsDead(s, item)
    requires forall id :: id in byAddress <==> id in s.users && HasAddress(s.users[id], item)
    requires forall id :: id in byName <==> id in s.users && HasName(s.users[id], item)
    ensures Resolved(s, item) == if |byAddress| > 0 then Classify(byAddress) else Classify(byName)
  {
    AddressesFound(s, item, byAddress);
    NamesFound(s, item, byName);
    ClassifyByNumber(byAddress);
    RowOfIff(s.identities, item.key);
  }

  /** Some row links the identity to the user. */
  ghost predicate IsLinkedTo(s: Store, item: DiscoveredUser, id: nat) {
    exists i :: 0 <= i < |s.identities| && s.identities[i].key == item.key && s.identities[i].userId == Some(id)
  }

  lemma SignedInIsLinked(s: Store, item: DiscoveredUser, alnum: char -> bool, now: int, newId: nat)
    ensures var (s', outcome) := Login(s, item, alnum, now, newId);
      && (outcome.SignedIn? ==> IsLinkedTo(s', item, outcome.userId) && s'.users == s.users)
      && (outcome.Created? ==> IsLinkedTo(s', item, outcome.userId) && outcome.userId == newId)
  {
    var (s', outcome) := Login(s, item, alnum, now, newId);
    if !outcome.Conflict? {
      UpsertedRow(s.identities, item, Some(outcome.userId), false, now);
      RowOfIff(s'.identities, item.key);
      RowOfIff(s.identities, item.key);
    }
  }

  /**
   A login whose link is absent or dead signs in and links the one user with its address. Several
   make a conflict of exactly those. Only when nobody has the address does the name decide, in the
   same way, and an account is created exactly when nobody has either.
   */
  lemma UnlinkedLogin(s: Store, item: DiscoveredUser, alnum: char -> bool, now: int, newId: nat, byAddress: set<nat>, byName: set<nat>)
    requires LinkIsDead(s, item)
    requires forall id :: id in byAddress <==> id in s.users && HasAddress(s.users[id], item)
    requires forall id :: id in byName <==> id in s.users && HasName(s.users[id], item)
    ensures var (s', outcome) := Login(s, item, alnum, now, newId);
      && (forall id :: byAddress == {id} ==> outcome == SignedIn(id) && IsLinkedTo(s', item, id))
      && (|byAddress| > 1 ==> outcome == Conflict(byAddress))
      && (|byAddress| == 0 ==>
            && (forall id :: byName == {id} ==> outcome == SignedIn(id) && IsLinkedTo(s', item, id))
            && (|byName| > 1 ==> outcome == Conflict(byName)))
      && (outcome.Created? <==> |byAddress| == 0 && |byName| == 0)
  {
    ResolvedByNumber(s, item, byAddress, byName);
    ClassifyByNumber(byAddress);
    ClassifyByNumber(byName);
    SignedInIsLinked(s, item, alnum, now, newId);
  }

  /** A user without an address is found by name, and no second account is created. */
  lemma AliceIsFoundByName(alnum: char -> bool)
    ensures var alice := DiscoveredUser(IdentityKey("plex", 1, "77"), "Alice", "alice", Some("alice@example.org"));
      var (s', outcome) := Login(Store(map[1 := User("alice", None)], []), alice, alnum, 0, 2);
      outcome == SignedIn(1) && s'.users == map[1 := User("alice", None)] && IsLinkedTo(s', alice, 1)
  {
    var alice := DiscoveredUser(IdentityKey("plex", 1, "77"), "Alice", "alice", Some("alice@example.org"));
    var s := Store(map[1 := User("alice", None)], []);
    UnlinkedLogin(s, alice, alnum, 0, 2, {}, {1});
    SignedInIsLinked(s, alice, alnum, 0, 2);
  }

  // ---- linked logins and new accounts ----

  /** A row that links the identity to a user that exists decides alone. */
  lemma LinkedLogin(s: Store, item: DiscoveredUser, alnum: char -> bool, now: int, newId: nat, i: nat)
    requires UniqueKeys(s.identities) && i < |s.identities| && s.identities[i].key == item.key
    requires s.identities[i].userId.Some? && s.identities[i].userId.value in s.users
    ensures Login(s, item, alnum, now, newId).1 == SignedIn(s.identities[i].userId.value)
  {
    RowOfIff(s.identities, item.key);
  }

  /** A name is asked for by the part of the address before its first "@", without an address by the reported name. */
  lemma AskedName(item: DiscoveredUser, local: string, domain: string)
    requires '@' !in local
    ensures item.email == Some(local + "@" + domain) ==> DesiredUsername(item) == local
    ensures item.email == Some(local) && local != [] ==> DesiredUsername(item) == local
    ensures item.email == None || item.email == Some([]) ==> DesiredUsername(item) == item.username
  {
    var isAt := c => c == '@';
    if item.email == Some(local + "@" + domain) {
      var email := item.email.value;
      assert email[|local|] == '@';
      assert forall i :: 0 <= i < |local| ==> email[i] == local[i];
      assert FirstIndex(email, isAt) == |local|;
      assert email[..|local|] == local;
    }
    if item.email == Some(local) {
      assert FirstIndex(local, isAt) == |local|;
    }
  }

  /** The new account's name is chosen by the asked name among the names in use, its address is the reported one. */
  lemma CreatedName(s: Store, item: DiscoveredUser, alnum: char -> bool, now: int, newId: nat, used: set<string>)
    requires Login(s, item, alnum, now, newId).1.Created?
    requires forall n :: n in used <==> exists id :: id in s.users && AsciiNormalize(s.users[id].username) == n
    ensures KeepsSuffix(AsciiNormalize) && newId in Login(s, item, alnum, now, newId).0.users
    ensures Login(s, item, alnum, now, newId).0.users[newId]
      == User(UniqueUsername(DesiredUsername(item), used, alnum, AsciiNormalize), item.email)
  {
    AsciiNormalizeKeepsSuffix();
    assert used == UsedUsernames(s.users);
  }

  /** An identity linked to a user that exists signs that user in, and stays linked. */
  lemma LinkedLoginIsStable(s: Store, item: DiscoveredUser, alnum: char -> bool, now: int, newId: nat, u: nat)
    requires Consistent(s) && LinkOf(s.identities, item.key) == Some(u)
    ensures Login(s, item, alnum, now, newId).1 == SignedIn(u)
    ensures LinkOf(Login(s, item, alnum, now, newId).0.identities, item.key) == Some(u)
    ensures Login(s, item, alnum, now, newId).0.users == s.users
  {
    LinksResolve(s, item.key);
    UpsertTouchesOneKey(s.identities, item, Some(u), false, now);
  }

  /** A conflict changes no user and no link: an existing row keeps its link, a new row has none. */
  lemma ConflictLeavesLinks(s: Store, item: DiscoveredUser, alnum: char -> bool, now: int, newId: nat)
    requires UniqueKeys(s.identities) && Login(s, item, alnum, now, newId).1.Conflict?
    ensures var s' := Login(s, item, alnum, now, newId).0;
      && s'.users == s.users
      && |Login(s, item, alnum, now, newId).1.userIds| > 1
      && forall key :: LinkOf(s'.identities, key) == LinkOf(s.identities, key)
  {
    UpsertTouchesOneKey(s.identities, item, None, true, now);
    var s' := Login(s, item, alnum, now, newId).0;
    forall key ensures LinkOf(s'.identities, key) == LinkOf(s.identities, key) {
      if key != item.key {
        assert RowOf(s'.identities, key) == RowOf(s.identities, key);
      }
    }
  }

  /**
   A created account collides with nobody's username, not even in another case, and leaves all other
   accounts as they were. Its address can be somebody else's exactly in the one case the code does not
   look up: an address that is present but empty. Discovered users are built with normalised addresses,
   which are never empty, so `CreatedAddressIsNew` is what holds of every login.
   */
  lemma CreatedAccountIsNew(s: Store, item: DiscoveredUser, alnum: char -> bool, now: int, newId: nat)
    requires newId !in s.users && Login(s, item, alnum, now, newId).1 == Created(newId)
    ensures var s' := Login(s, item, alnum, now, newId).0;
      && newId in s'.users && s'.users.Keys == s.users.Keys + {newId}
      && (forall id :: id in s.users ==> s'.users[id] == s.users[id])
      && (forall id :: id in s.users ==> AsciiNormalize(s.users[id].username) != AsciiNormalize(s'.users[newId].username))
      && s'.users[newId].email == item.email
      && ((exists id :: id in s.users && item.email.Some? && SameEmail(s.users[id], item.email.value))
          <==> item.email == Some([]) && exists id :: id in s.users && s.users[id].email == Some([]))
  {
    AsciiNormalizeKeepsSuffix();
    var used := UsedUsernames(s.users);
    var name := UniqueUsername(DesiredUsername(item), used, alnum, AsciiNormalize);
    forall id | id in s.users ensures AsciiNormalize(s.users[id].username) in used {
    }
    if HasEmail(item) {
      ClassifyMembers(WithEmail(s.users, item.email.value));
      forall id | id in s.users ensures !SameEmail(s.users[id], item.email.value) {
        assert id !in WithEmail(s.users, item.email.value);
      }
    } else if item.email.Some? {
      forall id | id in s.users ensures SameEmail(s.users[id], []) <==> s.users[id].email == Some([]) {
        assert s.users[id].email.Some? ==> |Lower(s.users[id].email.value)| == |s.users[id].email.value|;
        assert |Lower([])| == 0;
      }
    }
  }

  /** An address as normalisation leaves it: absent or not empty. */
  predicate HasNormalizedEmail(item: DiscoveredUser) {
    item.email != Some([])
  }

  lemma CreatedAddressIsNew(s: Store, item: DiscoveredUser, alnum: char -> bool, now: int, newId: nat, id: nat)
    requires newId !in s.users && Login(s, item, alnum, now, newId).1 == Created(newId)
    requires HasNormalizedEmail(item) && id in s.users
    ensures item.email.Some? ==> !SameEmail(s.users[id], item.email.value)
  {
    CreatedAccountIsNew(s, item, alnum, now, newId);
  }

  ghost predicate SameEmail(u: User, email: string) {
    u.email.Some? && Lower(u.email.value) == Lower(email)
  }

  // ---- runs ----

  /** What can happen to the tables; an administrator may edit, link or unlink at any time. */
  datatype Event =
    | LoginEvent(item: DiscoveredUser, now: int, newId: nat)
    | EditUser(id: nat, user: User)
    | DeleteUser(id: nat)
    | AdminLink(key: IdentityKey, target: Option<nat>)

  /** Deleting a user clears the links to it (`ON DELETE SET NULL`). */
  ghost function Unlinked(rows: seq<Identity>, id: nat): (r: seq<Identity>)
    ensures |r| == |rows|
    ensures forall i :: 0 <= i < |rows| ==>
      r[i] == if rows[i].userId == Some(id) then rows[i].(userId := None) else rows[i]
  {
    seq(|rows|, i requires 0 <= i < |rows| => if rows[i].userId == Some(id) then rows[i].(userId := None) else rows[i])
  }

  ghost predicate Possible(s: Store, e: Event) {
    match e
    case LoginEvent(_, _, newId) => newId !in s.users
    case EditUser(_, _) => true
    case DeleteUser(id) => id in s.users
    case AdminLink(_, target) => target.Some? ==> target.value in s.users
  }

  ghost function Next(s: Store, e: Event, alnum: char -> bool): Store {
    match e
    case LoginEvent(item, now, newId) => Login(s, item, alnum, now, newId).0
    case EditUser(id, user) => s.(users := s.users[id := user])
    case DeleteUser(id) => Store(s.users - {id}, Unlinked(s.identities, id))
    case AdminLink(key, target) =>
      var i := RowIndex(s.identities, key);
      if i < |s.identities| then s.(identities := s.identities[i := s.identities[i].(userId := target)]) else s
  }

  ghost function RunFrom(s: Store, events: seq<Event>, alnum: char -> bool): Store {
    if events == [] then s
    else Next(RunFrom(s, events[..|events| - 1], alnum), events[|events| - 1], alnum)
  }

  ghost predicate PossibleRun(s: Store, events: seq<Event>, alnum: char -> bool) {
    events != [] ==>
      && PossibleRun(s, events[..|events| - 1], alnum)
      && Possible(RunFrom(s, events[..|events| - 1], alnum), events[|events| - 1])
  }

  lemma NextKeepsConsistent(s: Store, e: Event, alnum: char -> bool)
    requires Consistent(s) && Possible(s, e)
    ensures Consistent(Next(s, e, alnum))
  {
    if e.LoginEvent? {
      LoginKeepsConsistent(s, e.item, alnum, e.now, e.newId);
    }
  }

  /** Over any run there is at most one identity row per key, and every link leads to a user. */
  lemma {:induction false} RunKeepsConsistent(s: Store, events: seq<Event>, alnum: char -> bool)
    requires Consistent(s) && PossibleRun(s, events, alnum)
    ensures Consistent(RunFrom(s, events, alnum))
  {
    if events != [] {
      RunKeepsConsistent(s, events[..|events| - 1], alnum);
      NextKeepsConsistent(RunFrom(s, events[..|events| - 1], alnum), events[|events| - 1], alnum);
    }
  }

  /** Whether an event takes the link of `key` away from `u`: the user goes, or an administrator relinks. */
  ghost predicate Severs(e: Event, key: IdentityKey, u: nat) {
    e == DeleteUser(u) || (e.AdminLink? && e.key == key)
  }

  lemma NextKeepsLink(s: Store, e: Event, alnum: char -> bool, key: IdentityKey, u: nat)
    requires Consistent(s) && Possible(s, e) && LinkOf(s.identities, key) == Some(u)
    requires !Severs(e, key, u)
    ensures LinkOf(Next(s, e, alnum).identities, key) == Some(u) && u in Next(s, e, alnum).users
    ensures e.LoginEvent? && e.item.key == key ==> Login(s, e.item, alnum, e.now, e.newId).1 == SignedIn(u)
  {
    NextKeepsConsistent(s, e, alnum);
    match e
    case LoginEvent(item, now, newId) =>
      if item.key == key {
        LinkedLoginIsStable(s, item, alnum, now, newId, u);
      } else {
        OtherLoginKeepsRow(s, item, alnum, now, newId, key);
      }
    case EditUser(_, _) =>
    case DeleteUser(id) =>
      var rows := s.identities;
      var rows' := Unlinked(rows, id);
      assert forall i :: 0 <= i < |rows| ==> rows'[i].key == rows[i].key;
      assert RowIndex(rows', key) == RowIndex(rows, key);
    case AdminLink(other, target) =>
      var rows := s.identities;
      var rows' := Next(s, e, alnum).identities;
      assert forall i :: 0 <= i < |rows| ==> rows'[i].key == rows[i].key;
      assert RowIndex(rows', key) == RowIndex(rows, key);
    LinksResolve(Next(s, e, alnum), key);
  }

  lemma OtherLoginKeepsRow(s: Store, item: DiscoveredUser, alnum: char -> bool, now: int, newId: nat, key: IdentityKey)
    requires Consistent(s) && item.key != key
    ensures RowOf(Login(s, item, alnum, now, newId).0.identities, key) == RowOf(s.identities, key)
  {
    match Resolved(s, item)
    case OneUser(id) => UpsertTouchesOneKey(s.identities, item, Some(id), false, now);
    case SeveralUsers(_) => UpsertTouchesOneKey(s.identities, item, None, true, now);
    case NoUser => UpsertTouchesOneKey(s.identities, item, Some(newId), false, now);
  }

  /**
   Once linked, always the same user: until the user is deleted or an administrator relinks the
   identity, every login with it, whatever else happens in between, returns that user.
   */
  lemma {:induction false} LinkedIdentityAlwaysSignsIn(s: Store, events: seq<Event>, alnum: char -> bool, key: IdentityKey, u: nat)
    requires Consistent(s) && PossibleRun(s, events, alnum) && LinkOf(s.identities, key) == Some(u)
    requires forall i :: 0 <= i < |events| ==> !Severs(events[i], key, u)
    ensures LinkOf(RunFrom(s, events, alnum).identities, key) == Some(u)
    ensures forall item: DiscoveredUser, now: int, newId: nat :: item.key == key ==>
      Login(RunFrom(s, events, alnum), item, alnum, now, newId).1 == SignedIn(u)
  {
    if events != [] {
      var front := events[..|events| - 1];
      LinkedIdentityAlwaysSignsIn(s, front, alnum, key, u);
      RunKeepsConsistent(s, front, alnum);
      NextKeepsLink(RunFrom(s, front, alnum), events[|events| - 1], alnum, key, u);
    }
    RunKeepsConsistent(s, events, alnum);
    forall item: DiscoveredUser, now: int, newId: nat | item.key == key
      ensures Login(RunFrom(s, events, alnum), item, alnum, now, newId).1 == SignedIn(u)
    {
      LinkedLoginIsStable(RunFrom(s, events, alnum), item, alnum, now, newId, u);
    }
  }
}
