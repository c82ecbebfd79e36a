/**
 Keeping one titled collection of a media server equal to an expected set of items.

 The server is a mutable world of collections over a fixed library. Any request may fail, before or
 after it has taken effect, and that ends the synchronisation. Which order the ids take inside a
 request, and how the server spells ids, is not modelled.
 */
module Collections {
  import opened AsciiText
  import opened Common
  import opened Listings
  import opened Pagination

  const COLLECTION_MUTATION_BATCH_SIZE: nat := 100

  type ItemId = string
  type CollectionId = string

  datatype Box = Box(name: string, members: set<ItemId>)

  /** All collections, with the order in which the server lists them. */
  datatype World = World(order: seq<CollectionId>, boxes: map<CollectionId, Box>)

  /** Which items exist, and of what kind every item is. */
  datatype Library = Library(items: set<ItemId>, kind: ItemId -> string)

  datatype Request =
    | Validate(ids: seq<ItemId>)
    | Create(name: string, ids: seq<ItemId>)
    | Add(collection: CollectionId, ids: seq<ItemId>)
    | Remove(collection: CollectionId, ids: seq<ItemId>)
    | RemoveByPost(collection: CollectionId, ids: seq<ItemId>)
    | Delete(collection: CollectionId)

  ghost predicate ValidWorld(w: World) {
    Distinct(w.order) && Elements(w.order) == w.boxes.Keys
  }

  function SameTitle(a: string, b: string): bool {
    AsciiNormalize(a) == AsciiNormalize(b)
  }

  /** The collections of a title, in listing order. */
  function TitledIn(order: seq<CollectionId>, boxes: map<CollectionId, Box>, title: string): seq<CollectionId> {
    if order == [] then []
    else
      TitledIn(order[..|order| - 1], boxes, title)
      + var id := order[|order| - 1];
        if id in boxes && SameTitle(boxes[id].name, title) then [id] else []
  }

  function Titled(w: World, title: string): seq<CollectionId> {
    TitledIn(w.order, w.boxes, title)
  }

  function OfKind(ids: set<ItemId>, lib: Library, kinds: set<string>): set<ItemId> {
    set i | i in ids && lib.kind(i) in kinds
  }

  function Existing(ids: set<ItemId>, lib: Library, kinds: set<string>): set<ItemId> {
    set i | i in ids && i in lib.items && lib.kind(i) in kinds
  }

  /** Expected ids with surrounding blanks removed and blank ones dropped. */
  function Normalized(ids: set<ItemId>): set<ItemId> {
    set i | i in ids && StripBlanks(i) != [] :: StripBlanks(i)
  }

  /** Two names are one title exactly when, blanks around them and the case of ASCII letters aside, they are spelled alike. */
  lemma SameTitleIff(a: string, b: string)
    ensures SameTitle(a, b) <==> SameCore(a, b)
  {
    NormalizeIff(a, b);
  }

  /** What is expected are the texts between the blanks, those that are not empty. */
  lemma NormalizedIff(ids: set<ItemId>, i: ItemId)
    ensures i in Normalized(ids) <==> |i| > 0 && exists e, left, right :: e in ids && Spells(e, left, i, right)
  {
    if i in Normalized(ids) {
      var e :| e in ids && StripBlanks(e) == i && i != [];
      var left, right := StripSplits(e);
    }
    if |i| > 0 && exists e, left, right :: e in ids && Spells(e, left, i, right) {
      var e, left, right :| e in ids && Spells(e, left, i, right);
      StripFindsCore(e, left, i, right);
    }
  }

  /** Collections whose name is another title are the same before and after. */
  ghost predicate OtherTitlesUntouched(before: map<CollectionId, Box>, after: map<CollectionId, Box>, title: string) {
    && (forall id :: id in before && !SameCore(before[id].name, title) ==> id in after && after[id] == before[id])
    && (forall id :: id in after && !SameCore(after[id].name, title) ==> id in before && before[id] == after[id])
  }

  // ---- batches ----

  /** Where the batch that starts at `start` ends. */
  function BatchEnd(size: nat, start: nat): nat {
    if start + COLLECTION_MUTATION_BATCH_SIZE <= size then start + COLLECTION_MUTATION_BATCH_SIZE else size
  }

  /** A list cut into runs of at most `COLLECTION_MUTATION_BATCH_SIZE`, from position `start` on. */
  function Chunks(ids: seq<ItemId>, start: nat): seq<seq<ItemId>>
    decreases |ids| - start
  {
    if start >= |ids| then []
    else [ids[start..BatchEnd(|ids|, start)]] + Chunks(ids, start + COLLECTION_MUTATION_BATCH_SIZE)
  }

  ghost function Joined(chunks: seq<seq<ItemId>>): seq<ItemId> {
    if chunks == [] then [] else chunks[0] + Joined(chunks[1..])
  }

  /** The batches together are the list, each id in exactly one place: full ones of a hundred, and a last one that is not empty. */
  lemma {:induction false} ChunksPartition(ids: seq<ItemId>, start: nat)
    requires start <= |ids|
    ensures Joined(Chunks(ids, start)) == ids[start..]
    ensures forall c :: c in Chunks(ids, start) ==> 1 <= |c| <= 100
    ensures forall i :: 0 <= i < |Chunks(ids, start)| - 1 ==> |Chunks(ids, start)[i]| == 100
    decreases |ids| - start
  {
    if start < |ids| {
      var end := BatchEnd(|ids|, start);
      if start + COLLECTION_MUTATION_BATCH_SIZE <= |ids| {
        ChunksPartition(ids, end);
      }
      assert ids[start..] == ids[start..end] + ids[end..];
      var rest := Chunks(ids, start + COLLECTION_MUTATION_BATCH_SIZE);
      assert Chunks(ids, start) == [ids[start..end]] + rest;
      assert forall c :: c in Chunks(ids, start) ==> c == ids[start..end] || c in rest;
    }
  }

  /** Cutting a list from the end of a first part on is cutting the rest. */
  lemma {:induction false} ChunksOfRest(first: seq<ItemId>, rest: seq<ItemId>, start: nat)
    ensures Chunks(first + rest, |first| + start) == Chunks(rest, start)
    decreases |rest| - start
  {
    if start < |rest| {
      var end := BatchEnd(|rest|, start);
      assert (first + rest)[|first| + start..|first| + end] == rest[start..end];
      ChunksOfRest(first, rest, start + COLLECTION_MUTATION_BATCH_SIZE);
    }
  }

  /** What is sent for a list of batches, when `make` is what is sent for one. */
  function Requests(chunks: seq<seq<ItemId>>, make: seq<ItemId> -> seq<Request>): seq<Request> {
    if chunks == [] then [] else make(chunks[0]) + Requests(chunks[1..], make)
  }

  function Validating(): seq<ItemId> -> seq<Request> {
    c => [Validate(c)]
  }

  function Adding(id: CollectionId): seq<ItemId> -> seq<Request> {
    c => [Add(id, c)]
  }

  /** DELETE, and the older endpoint after a 404. */
  function Removing(id: CollectionId, supportsDelete: bool): seq<ItemId> -> seq<Request> {
    c => if supportsDelete then [Remove(id, c)] else [Remove(id, c), RemoveByPost(id, c)]
  }

  /** The first batch creates the collection, the others are added to it. */
  function Creating(title: string, id: CollectionId, chunks: seq<seq<ItemId>>): seq<Request> {
    if chunks == [] then [] else [Create(title, chunks[0])] + Requests(chunks[1..], Adding(id))
  }

  /**
   A loop over batches stands at `start`: with the requests still to come the log makes up the plan,
   and with the ids still to come what is done makes up all ids.
   */
  ghost predicate Underway(listed: seq<ItemId>, start: nat, make: seq<ItemId> -> seq<Request>,
                           log: seq<Request>, plan: seq<Request>, done: set<ItemId>, ids: set<ItemId>)
  {
    start <= |listed| && log + Requests(Chunks(listed, start), make) == plan && done + Elements(listed[start..]) == ids
  }

  lemma BatchesBegin(listed: seq<ItemId>, make: seq<ItemId> -> seq<Request>, log: seq<Request>)
    ensures Underway(listed, 0, make, log, log + Requests(Chunks(listed, 0), make), {}, Elements(listed))
  {
    assert listed[0..] == listed;
  }

  lemma NextBatch(listed: seq<ItemId>, start: nat, make: seq<ItemId> -> seq<Request>,
                  log: seq<Request>, plan: seq<Request>, done: set<ItemId>, ids: set<ItemId>)
    requires Underway(listed, start, make, log, plan, done, ids) && start < |listed|
    ensures var end := BatchEnd(|listed|, start);
      var chunk := listed[start..end];
      Underway(listed, end, make, log + make(chunk), plan, done + Elements(chunk), ids)
  {
    var end := BatchEnd(|listed|, start);
    var chunk := listed[start..end];
    var rest := Chunks(listed, end);
    assert listed[start..] == chunk + listed[end..];
    ElementsConcat(chunk, listed[end..]);
    assert Chunks(listed, start) == [chunk] + rest && ([chunk] + rest)[1..] == rest;
    assert (log + make(chunk)) + Requests(rest, make) == log + (make(chunk) + Requests(rest, make));
  }

  lemma BatchesEnd(listed: seq<ItemId>, make: seq<ItemId> -> seq<Request>,
                   log: seq<Request>, plan: seq<Request>, done: set<ItemId>, ids: set<ItemId>)
    requires Underway(listed, |listed|, make, log, plan, done, ids)
    ensures log == plan && done == ids
  {
  }

  // ---- what a synchronisation amounts to ----

  function Dropped(order: seq<CollectionId>, gone: set<CollectionId>): seq<CollectionId> {
    if order == [] then []
    else
      Dropped(order[..|order| - 1], gone)
      + if order[|order| - 1] in gone then [] else [order[|order| - 1]]
  }

  function Without(w: World, gone: set<CollectionId>): World {
    World(Dropped(w.order, gone), w.boxes - gone)
  }

  function Extended(w: World, id: CollectionId, ids: set<ItemId>): World {
    if id in w.boxes then w.(boxes := w.boxes[id := w.boxes[id].(members := w.boxes[id].members + ids)]) else w
  }

  function Reduced(w: World, id: CollectionId, ids: set<ItemId>): World {
    if id in w.boxes then w.(boxes := w.boxes[id := w.boxes[id].(members := w.boxes[id].members - ids)]) else w
  }

  /** A world with one more collection, listed last. */
  ghost function WithNew(w: World, id: CollectionId, box: Box): World {
    World(w.order + [id], w.boxes[id := box])
  }

  /** The kept collection after its missing items are added, as far as they exist, and its unwanted ones removed. */
  ghost function Reconciled(w: World, lib: Library, kinds: set<string>, kept: CollectionId, want: set<ItemId>): World
    requires kept in w.boxes
  {
    var current := OfKind(w.boxes[kept].members, lib, kinds);
    Reduced(Extended(w, kept, Existing(want - current, lib, kinds)), kept, current - want)
  }

  ghost function Synced(w: World, lib: Library, kinds: set<string>, title: string, expected: set<ItemId>, newId: CollectionId): World {
    var want := Normalized(expected);
    var ids := Titled(w, title);
    if want == {} then Without(w, Elements(ids))
    else if ids == [] then
      var found := Existing(want, lib, kinds);
      if found == {} then w else WithNew(w, newId, Box(title, found))
    else if ids[0] in w.boxes then Without(Reconciled(w, lib, kinds, ids[0], want), Elements(ids[1..]))
    else w
  }

  // ---- what an attempt keeps, finished or not ----

  /** The collections that do not have the title. */
  ghost function Others(w: World, title: string): map<CollectionId, Box> {
    map id | id in w.boxes && !SameTitle(w.boxes[id].name, title) :: w.boxes[id]
  }

  /** No collection of the title holds a wanted item that has vanished from the library. */
  ghost predicate HoldsNoVanished(w: World, lib: Library, kinds: set<string>, title: string, want: set<ItemId>) {
    forall id :: id in w.boxes && SameTitle(w.boxes[id].name, title) ==> OfKind(w.boxes[id].members, lib, kinds) * want <= lib.items
  }

  /** Other titles are untouched, and no collection of the title has gained a vanished item. */
  ghost predicate Keeps(w: World, after: World, lib: Library, kinds: set<string>, title: string, want: set<ItemId>) {
    && ValidWorld(after) && Others(after, title) == Others(w, title)
    && (HoldsNoVanished(w, lib, kinds, title, want) ==> HoldsNoVanished(after, lib, kinds, title, want))
  }

  lemma OthersUntouched(w: World, after: World, title: string)
    requires Others(after, title) == Others(w, title)
    ensures OtherTitlesUntouched(w.boxes, after.boxes, title)
  {
    forall id | id in w.boxes && !SameCore(w.boxes[id].name, title) ensures id in after.boxes && after.boxes[id] == w.boxes[id] {
      SameTitleIff(w.boxes[id].name, title);
      assert id in Others(w, title);
    }
    forall id | id in after.boxes && !SameCore(after.boxes[id].name, title) ensures id in w.boxes && w.boxes[id] == after.boxes[id] {
      SameTitleIff(after.boxes[id].name, title);
      assert id in Others(after, title);
    }
  }

  lemma ExtendedKeeps(w: World, id: CollectionId, ids: set<ItemId>, lib: Library, kinds: set<string>, title: string, want: set<ItemId>)
    requires ValidWorld(w) && id in w.boxes && SameTitle(w.boxes[id].name, title) && ids <= lib.items
    ensures Keeps(w, Extended(w, id, ids), lib, kinds, title, want)
  {
  }

  lemma ReducedKeeps(w: World, id: CollectionId, ids: set<ItemId>, lib: Library, kinds: set<string>, title: string, want: set<ItemId>)
    requires ValidWorld(w) && id in w.boxes && SameTitle(w.boxes[id].name, title)
    ensures Keeps(w, Reduced(w, id, ids), lib, kinds, title, want)
  {
  }

  lemma WithoutKeeps(w: World, gone: set<CollectionId>, lib: Library, kinds: set<string>, title: string, want: set<ItemId>)
    requires ValidWorld(w) && forall id :: id in gone && id in w.boxes ==> SameTitle(w.boxes[id].name, title)
    ensures Keeps(w, Without(w, gone), lib, kinds, title, want)
  {
    WithoutIsValid(w, gone);
  }

  lemma WithNewKeeps(w: World, id: CollectionId, ids: set<ItemId>, lib: Library, kinds: set<string>, title: string, want: set<ItemId>)
    requires ValidWorld(w) && id !in w.boxes && ids <= lib.items
    ensures Keeps(w, WithNew(w, id, Box(title, ids)), lib, kinds, title, want)
  {
    var after := WithNew(w, id, Box(title, ids));
    assert ValidWorld(after) by {
      NewIsTitledLast(w, id, Box(title, ids), title);
    }
    assert Others(after, title) == Others(w, title);
  }

  // ---- the requests, one at a time ----

  /** What becomes of a request: it is answered, it fails without effect, or it takes effect and then fails. */
  datatype Fate = Answered | Refused | AnswerLost

  datatype Status = Success | NotFound | Failure

  class MediaServer {
    const library: Library
    const paging: Paging
    /** Whether the answer to a create request carries the new id. */
    const repliesWithId: bool
    /** Whether items can be removed with DELETE; otherwise that answers 404. */
    const supportsDelete: bool
    /** What becomes of the n-th request; reading a list through all its pages is one. */
    const fate: nat -> Fate
    var order: seq<CollectionId>
    var boxes: map<CollectionId, Box>
    var calls: nat
    ghost var log: seq<Request>

    ghost function State(): World
      reads this
    {
      World(order, boxes)
    }

    ghost predicate Valid()
      reads this
    {
      ValidWorld(State()) && Dependable(paging)
    }

    constructor (library: Library, paging: Paging, repliesWithId: bool, supportsDelete: bool,
                 fate: nat -> Fate)
      requires Dependable(paging)
      ensures Valid() && State() == World([], map[]) && log == [] && calls == 0
      ensures this.library == library && this.paging == paging && this.fate == fate
    {
      this.library := library;
      this.paging := paging;
      this.repliesWithId := repliesWithId;
      this.supportsDelete := supportsDelete;
      this.fate := fate;
      order := [];
      boxes := map[];
      calls := 0;
      log := [];
    }

    /** None of the requests `from` up to `to` has failed. */
    ghost predicate AllAnswered(from: nat, to: nat) {
      from <= to && forall n :: from <= n < to ==> fate(n).Answered?
    }

    /** Reads a list; nothing changes on the server. */
    method Read() returns (ok: bool)
      modifies this`calls
      ensures calls == old(calls) + 1 && (ok <==> AllAnswered(old(calls), calls))
    {
      ok := fate(calls).Answered?;
      calls := calls + 1;
    }

    method Send(ghost request: Request) returns (fate: Fate)
      modifies this`calls, this`log
      ensures calls == old(calls) + 1 && log == old(log) + [request]
      ensures fate == this.fate(old(calls)) && (fate.Answered? <==> AllAnswered(old(calls), calls))
    {
      fate := this.fate(calls);
      calls := calls + 1;
      log := log + [request];
    }

    method QueryItems(ids: seq<ItemId>, kinds: set<string>) returns (found: Option<set<ItemId>>)
      modifies this`calls, this`log
      ensures found.Some? ==> found.value == Existing(Elements(ids), library, kinds)
      ensures log == old(log) + [Validate(ids)]
      ensures calls > old(calls) && (found.Some? <==> AllAnswered(old(calls), calls))
    {
      var fate := Send(Validate(ids));
      found := if fate.Answered? then Some(Existing(Elements(ids), library, kinds)) else None;
    }

    method PostCollection(name: string, ids: seq<ItemId>, newId: CollectionId) returns (ok: bool, reply: Option<CollectionId>)
      requires newId !in boxes
      modifies this
      ensures State() == WithNew(old(State()), newId, Box(name, Elements(ids))) || (!ok && State() == old(State()))
      ensures reply == (if repliesWithId then Some(newId) else None)
      ensures log == old(log) + [Create(name, ids)]
      ensures calls > old(calls) && (ok <==> AllAnswered(old(calls), calls))
    {
      var fate := Send(Create(name, ids));
      if !fate.Refused? {
        order := order + [newId];
        boxes := boxes[newId := Box(name, Elements(ids))];
      }
      ok, reply := fate.Answered?, if repliesWithId then Some(newId) else None;
    }

    method PostItems(id: CollectionId, ids: seq<ItemId>) returns (ok: bool, ghost applied: bool)
      modifies this
      ensures State() == (if applied then Extended(old(State()), id, Elements(ids)) else old(State())) && (ok ==> applied)
      ensures log == old(log) + [Add(id, ids)]
      ensures calls > old(calls) && (ok <==> AllAnswered(old(calls), calls))
    {
      var fate := Send(Add(id, ids));
      applied := !fate.Refused?;
      if !fate.Refused? && id in boxes {
        boxes := boxes[id := boxes[id].(members := boxes[id].members + Elements(ids))];
      }
      ok := fate.Answered?;
    }

    method TakeOut(id: CollectionId, ids: seq<ItemId>)
      modifies this`boxes
      ensures State() == Reduced(old(State()), id, Elements(ids))
    {
      if id in boxes {
        boxes := boxes[id := boxes[id].(members := boxes[id].members - Elements(ids))];
      }
    }

    method DeleteItems(id: CollectionId, ids: seq<ItemId>) returns (status: Status, ghost applied: bool)
      modifies this
      ensures State() == if applied then Reduced(old(State()), id, Elements(ids)) else old(State())
      ensures (status.Success? ==> applied) && (status.NotFound? ==> !applied)
      ensures !status.Failure? ==> status.Success? == supportsDelete
      ensures log == old(log) + [Remove(id, ids)]
      ensures calls > old(calls) && (!status.Failure? <==> AllAnswered(old(calls), calls))
    {
      var fate := Send(Remove(id, ids));
      applied := supportsDelete && !fate.Refused?;
      if !supportsDelete {
        status := if fate.Answered? then NotFound else Failure;
        return;
      }
      if !fate.Refused? {
        TakeOut(id, ids);
      }
      status := if fate.Answered? then Success else Failure;
    }

    method PostItemsDelete(id: CollectionId, ids: seq<ItemId>) returns (ok: bool, ghost applied: bool)
      modifies this
      ensures State() == (if applied then Reduced(old(State()), id, Elements(ids)) else old(State())) && (ok ==> applied)
      ensures log == old(log) + [RemoveByPost(id, ids)]
      ensures calls > old(calls) && (ok <==> AllAnswered(old(calls), calls))
    {
      var fate := Send(RemoveByPost(id, ids));
      applied := !fate.Refused?;
      if !fate.Refused? {
        TakeOut(id, ids);
      }
      ok := fate.Answered?;
    }

    method DeleteCollection(id: CollectionId) returns (ok: bool, ghost applied: bool)
      modifies this
      ensures State() == (if applied then Without(old(State()), {id}) else old(State())) && (ok ==> applied)
      ensures log == old(log) + [Delete(id)]
      ensures calls > old(calls) && (ok <==> AllAnswered(old(calls), calls))
    {
      var fate := Send(Delete(id));
      applied := !fate.Refused?;
      if !fate.Refused? {
        order := Dropped(order, {id});
        boxes := boxes - {id};
      }
      ok := fate.Answered?;
    }
  }

  // ---- the service's steps ----

  lemma {:induction false} ObjectsOfObjects<T>(values: seq<T>, entries: seq<Entry<T>>)
    requires |entries| == |values| && forall i :: 0 <= i < |values| ==> entries[i] == Object(values[i])
    ensures Objects(entries) == values
  {
    if values != [] {
      ObjectsOfObjects(values[..|values| - 1], entries[..|entries| - 1]);
    }
  }

  /** Pages through a list of objects on a dependable server. */
  method ReadAll<T>(values: seq<T>, paging: Paging) returns (items: seq<T>)
    requires Dependable(paging)
    ensures items == values
  {
    var entries := seq(|values|, i requires 0 <= i < |values| => Object(values[i]));
    DependableServersAreReadWhole(entries, paging);
    ObjectsOfObjects(values, entries);
    items := GetPaginatedItems(entries, paging);
  }

  lemma {:induction false} TitledMembers(order: seq<CollectionId>, boxes: map<CollectionId, Box>, title: string)
    ensures forall id :: id in TitledIn(order, boxes, title) <==> id in order && id in boxes && SameTitle(boxes[id].name, title)
    ensures Distinct(order) ==> Distinct(TitledIn(order, boxes, title))
  {
    if order != [] {
      var front := order[..|order| - 1];
      TitledMembers(front, boxes, title);
      assert forall id :: id in order <==> id in front || id == order[|order| - 1];
    }
  }

  /** A collection is found exactly when its name is the title. */
  lemma TitledIff(w: World, title: string)
    requires ValidWorld(w)
    ensures forall id :: id in Titled(w, title) <==> id in w.boxes && SameCore(w.boxes[id].name, title)
  {
    TitledMembers(w.order, w.boxes, title);
    forall id ensures id in Titled(w, title) <==> id in w.boxes && SameCore(w.boxes[id].name, title) {
      assert id in w.order <==> id in Elements(w.order);
      if id in w.boxes {
        SameTitleIff(w.boxes[id].name, title);
      }
    }
  }

  lemma {:induction false} TitledConcat(a: seq<CollectionId>, b: seq<CollectionId>, boxes: map<CollectionId, Box>, title: string)
    ensures TitledIn(a + b, boxes, title) == TitledIn(a, boxes, title) + TitledIn(b, boxes, title)
  {
    if b == [] {
      assert a + b == a;
    } else {
      assert (a + b)[..|a + b| - 1] == a + b[..|b| - 1];
      TitledConcat(a, b[..|b| - 1], boxes, title);
    }
  }

  lemma {:induction false} NoneTitled(order: seq<CollectionId>, boxes: map<CollectionId, Box>, title: string)
    requires forall j :: 0 <= j < |order| && order[j] in boxes ==> !SameCore(boxes[order[j]].name, title)
    ensures TitledIn(order, boxes, title) == []
  {
    if order != [] {
      var last := order[|order| - 1];
      NoneTitled(order[..|order| - 1], boxes, title);
      if last in boxes {
        SameTitleIff(boxes[last].name, title);
      }
    }
  }

  /** The collection kept is the first one listed under the title. */
  lemma FirstTitledIsListedFirst(w: World, title: string, k: nat)
    requires k < |w.order| && w.order[k] in w.boxes && SameCore(w.boxes[w.order[k]].name, title)
    requires forall j :: 0 <= j < k && w.order[j] in w.boxes ==> !SameCore(w.boxes[w.order[j]].name, title)
    ensures |Titled(w, title)| > 0 && Titled(w, title)[0] == w.order[k]
  {
    var before, found, rest := w.order[..k], [w.order[k]], w.order[k + 1..];
    assert w.order == before + found + rest;
    TitledConcat(before + found, rest, w.boxes, title);
    TitledConcat(before, found, w.boxes, title);
    assert found[..0] == [];
    SameTitleIff(w.boxes[w.order[k]].name, title);
    NoneTitled(before, w.boxes, title);
  }

  method FindCollectionIdsByTitle(server: MediaServer, title: string) returns (ok: bool, ids: seq<CollectionId>)
    requires server.Valid()
    modifies server`calls
    ensures ok ==> ids == Titled(server.State(), title)
    ensures ok ==> forall id :: id in ids <==> id in server.boxes && SameCore(server.boxes[id].name, title)
    ensures server.calls > old(server.calls)
    ensures ok <==> server.AllAnswered(old(server.calls), server.calls)
  {
    ids := [];
    ok := server.Read();
    if !ok {
      return;
    }
    var items := ReadAll(server.order, server.paging);
    for i := 0 to |items|
      invariant ids == TitledIn(items[..i], server.boxes, title)
    {
      assert items[..i + 1][..i] == items[..i];
      assert items[i] in Elements(items);
      if SameTitle(server.boxes[items[i]].name, title) {
        ids := ids + [items[i]];
      }
    }
    assert items[..|items|] == items;
    TitledIff(server.State(), title);
  }

  method GetCollectionItemIds(server: MediaServer, id: CollectionId, kinds: set<string>) returns (ok: bool, ids: set<ItemId>)
    requires server.Valid() && id in server.boxes
    modifies server`calls
    ensures ok ==> ids == OfKind(server.boxes[id].members, server.library, kinds)
    ensures server.calls > old(server.calls)
    ensures ok <==> server.AllAnswered(old(server.calls), server.calls)
  {
    ids := {};
    ok := server.Read();
    if !ok {
      return;
    }
    var members := Listed(OfKind(server.boxes[id].members, server.library, kinds));
    var items := ReadAll(members, server.paging);
    ids := Collected(items);
  }

  lemma ExistingConcat(a: set<ItemId>, b: set<ItemId>, lib: Library, kinds: set<string>)
    ensures Existing(a + b, lib, kinds) == Existing(a, lib, kinds) + Existing(b, lib, kinds)
  {
  }

  method FilterExistingCollectionItemIds(server: MediaServer, ids: set<ItemId>, kinds: set<string>)
    returns (ok: bool, found: set<ItemId>, ghost asked: seq<ItemId>)
    requires server.Valid()
    modifies server`calls, server`log
    ensures ok ==> found == Existing(ids, server.library, kinds)
    ensures Distinct(asked) && Elements(asked) == ids
    ensures ok ==> server.log == old(server.log) + Requests(Chunks(asked, 0), Validating())
    ensures old(server.calls) <= server.calls && (ok <==> server.AllAnswered(old(server.calls), server.calls))
  {
    var listed := Listed(ids);
    asked, found := listed, {};
    var start := 0;
    ghost var done := {};
    ghost var plan := server.log + Requests(Chunks(listed, 0), Validating());
    BatchesBegin(listed, Validating(), server.log);
    assert Existing({}, server.library, kinds) == {};
    while start < |listed|
      invariant server.AllAnswered(old(server.calls), server.calls)
      invariant Underway(listed, start, Validating(), server.log, plan, done, ids)
      invariant found == Existing(done, server.library, kinds)
    {
      var end := BatchEnd(|listed|, start);
      var chunk := listed[start..end];
      NextBatch(listed, start, Validating(), server.log, plan, done, ids);
      ExistingConcat(done, Elements(chunk), server.library, kinds);
      var answered := server.QueryItems(chunk, kinds);
      if answered.None? {
        ok := false;
        return;
      }
      found, done := found + answered.value, done + Elements(chunk);
      start := end;
    }
    BatchesEnd(listed, Validating(), server.log, plan, done, ids);
    ok := true;
  }

  lemma ExtendTwice(w: World, id: CollectionId, a: set<ItemId>, b: set<ItemId>)
    ensures Extended(Extended(w, id, a), id, b) == Extended(w, id, a + b)
  {
    if id in w.boxes {
      assert w.boxes[id].members + a + b == w.boxes[id].members + (a + b);
    }
  }

  lemma ReduceTwice(w: World, id: CollectionId, a: set<ItemId>, b: set<ItemId>)
    ensures Reduced(Reduced(w, id, a), id, b) == Reduced(w, id, a + b)
  {
    if id in w.boxes {
      assert w.boxes[id].members - a - b == w.boxes[id].members - (a + b);
    }
  }

  lemma NoChange(w: World, id: CollectionId)
    ensures Extended(w, id, {}) == w && Reduced(w, id, {}) == w
  {
    if id in w.boxes {
      assert w.boxes[id].members + {} == w.boxes[id].members;
    }
  }

  lemma ExtendedIsValid(w: World, id: CollectionId, ids: set<ItemId>)
    requires ValidWorld(w)
    ensures ValidWorld(Extended(w, id, ids)) && ValidWorld(Reduced(w, id, ids))
  {
  }

  /** `done` is what has been added when it ends, all of it unless a request failed. */
  method AddItemsToCollection(server: MediaServer, id: CollectionId, ids: set<ItemId>)
    returns (ok: bool, ghost sent: seq<ItemId>, ghost done: set<ItemId>)
    requires server.Valid()
    modifies server
    ensures server.State() == Extended(old(server.State()), id, done) && server.Valid()
    ensures done <= ids && (ok ==> done == ids)
    ensures Distinct(sent) && Elements(sent) == ids
    ensures ok ==> server.log == old(server.log) + Requests(Chunks(sent, 0), Adding(id))
    ensures old(server.calls) <= server.calls && (ok <==> server.AllAnswered(old(server.calls), server.calls))
  {
    var listed := Listed(ids);
    sent, done := listed, {};
    var start := 0;
    ghost var plan := server.log + Requests(Chunks(listed, 0), Adding(id));
    ghost var before := server.State();
    NoChange(before, id);
    BatchesBegin(listed, Adding(id), server.log);
    while start < |listed|
      invariant server.AllAnswered(old(server.calls), server.calls)
      invariant Underway(listed, start, Adding(id), server.log, plan, done, ids)
      invariant server.State() == Extended(before, id, done)
    {
      var end := BatchEnd(|listed|, start);
      var chunk := listed[start..end];
      NextBatch(listed, start, Adding(id), server.log, plan, done, ids);
      ExtendTwice(before, id, done, Elements(chunk));
      ghost var applied;
      ok, applied := server.PostItems(id, chunk);
      done := if applied then done + Elements(chunk) else done;
      if !ok {
        ExtendedIsValid(before, id, done);
        return;
      }
      start := end;
    }
    BatchesEnd(listed, Adding(id), server.log, plan, done, ids);
    ExtendedIsValid(before, id, done);
    ok := true;
  }

  method RemoveBatch(server: MediaServer, id: CollectionId, chunk: seq<ItemId>)
    returns (ok: bool, ghost applied: bool)
    modifies server
    ensures server.State() == (if applied then Reduced(old(server.State()), id, Elements(chunk)) else old(server.State())) && (ok ==> applied)
    ensures ok ==> server.log == old(server.log) + Removing(id, server.supportsDelete)(chunk)
    ensures old(server.calls) <= server.calls && (ok <==> server.AllAnswered(old(server.calls), server.calls))
  {
    var status;
    status, applied := server.DeleteItems(id, chunk);
    ok := status.Success?;
    if status.NotFound? {
      ok, applied := server.PostItemsDelete(id, chunk);
    }
  }

  /** `done` is what has been removed when it ends, all of it unless a request failed. */
  method RemoveItemsFromCollection(server: MediaServer, id: CollectionId, ids: set<ItemId>)
    returns (ok: bool, ghost sent: seq<ItemId>, ghost done: set<ItemId>)
    requires server.Valid()
    modifies server
    ensures server.State() == Reduced(old(server.State()), id, done) && server.Valid()
    ensures done <= ids && (ok ==> done == ids)
    ensures Distinct(sent) && Elements(sent) == ids
    ensures ok ==> server.log == old(server.log) + Requests(Chunks(sent, 0), Removing(id, server.supportsDelete))
    ensures old(server.calls) <= server.calls && (ok <==> server.AllAnswered(old(server.calls), server.calls))
  {
    var listed := Listed(ids);
    sent, done := listed, {};
    var start := 0;
    ghost var make := Removing(id, server.supportsDelete);
    ghost var plan := server.log + Requests(Chunks(listed, 0), make);
    ghost var before := server.State();
    NoChange(before, id);
    BatchesBegin(listed, make, server.log);
    while start < |listed|
      invariant server.AllAnswered(old(server.calls), server.calls)
      invariant Underway(listed, start, make, server.log, plan, done, ids)
      invariant server.State() == Reduced(before, id, done)
    {
      var end := BatchEnd(|listed|, start);
      var chunk := listed[start..end];
      NextBatch(listed, start, make, server.log, plan, done, ids);
      ReduceTwice(before, id, done, Elements(chunk));
      ghost var applied;
      ok, applied := RemoveBatch(server, id, chunk);
      done := if applied then done + Elements(chunk) else done;
      if !ok {
        ExtendedIsValid(before, id, done);
        return;
      }
      start := end;
    }
    BatchesEnd(listed, make, server.log, plan, done, ids);
    ExtendedIsValid(before, id, done);
    ok := true;
  }

  lemma {:induction false} TitledIgnoresStrangers(order: seq<CollectionId>, boxes: map<CollectionId, Box>, title: string, id: CollectionId, box: Box)
    requires id !in order
    ensures TitledIn(order, boxes[id := box], title) == TitledIn(order, boxes, title)
  {
    if order != [] {
      TitledIgnoresStrangers(order[..|order| - 1], boxes, title, id, box);
    }
  }

  lemma NewIsTitledLast(w: World, id: CollectionId, box: Box, title: string)
    requires ValidWorld(w) && id !in w.boxes
    ensures ValidWorld(WithNew(w, id, box))
    ensures Titled(WithNew(w, id, box), title) == Titled(w, title) + if SameTitle(box.name, title) then [id] else []
  {
    assert id !in Elements(w.order);
    ElementsConcat(w.order, [id]);
    TitledIgnoresStrangers(w.order, w.boxes, title, id, box);
    assert (w.order + [id])[..|w.order|] == w.order;
  }

  lemma ExtendNew(w: World, id: CollectionId, title: string, a: set<ItemId>, b: set<ItemId>)
    ensures Extended(WithNew(w, id, Box(title, a)), id, b) == WithNew(w, id, Box(title, a + b))
  {
  }

  lemma OneBatchPlan(title: string, id: CollectionId, first: seq<ItemId>)
    requires 0 < |first| <= COLLECTION_MUTATION_BATCH_SIZE
    ensures Creating(title, id, Chunks(first, 0)) == [Create(title, first)]
  {
    assert first[0..BatchEnd(|first|, 0)] == first;
    assert Chunks(first, COLLECTION_MUTATION_BATCH_SIZE) == [];
    assert Chunks(first, 0) == [first] && [first][1..] == [];
  }

  /** A full first batch and the batches of the rest are together one plan. */
  lemma CreatingPlan(title: string, id: CollectionId, first: seq<ItemId>, rest: seq<ItemId>)
    requires |first| == COLLECTION_MUTATION_BATCH_SIZE
    ensures Creating(title, id, Chunks(first + rest, 0)) == [Create(title, first)] + Requests(Chunks(rest, 0), Adding(id))
  {
    var ids := first + rest;
    assert ids[0..BatchEnd(|ids|, 0)] == first;
    ChunksOfRest(first, rest, 0);
    assert Chunks(ids, 0) == [first] + Chunks(rest, 0);
    assert ([first] + Chunks(rest, 0))[1..] == Chunks(rest, 0);
  }

  /** Listing the second part of a list again keeps the whole free of repetition. */
  lemma DistinctParts(first: seq<ItemId>, rest: seq<ItemId>, again: seq<ItemId>)
    requires Distinct(first + rest) && Distinct(again) && Elements(again) == Elements(rest)
    ensures Distinct(first + again) && (rest != [] ==> again != [])
  {
    var whole := first + rest;
    forall i, j | 0 <= i < j < |first + again| ensures (first + again)[i] != (first + again)[j] {
      if j < |first| {
        assert whole[i] == first[i] && whole[j] == first[j];
      } else if i < |first| {
        assert again[j - |first|] in Elements(rest);
        var k :| 0 <= k < |rest| && rest[k] == again[j - |first|];
        assert whole[i] == first[i] && whole[|first| + k] == rest[k];
      }
    }
    assert rest != [] ==> rest[0] in Elements(again);
  }

  /** A created and a later part, listed again, are one plan for all ids. */
  lemma PartsAreWhole(title: string, id: CollectionId, first: seq<ItemId>, rest: seq<ItemId>, again: seq<ItemId>, log: seq<Request>)
    requires |first| == COLLECTION_MUTATION_BATCH_SIZE
    requires Distinct(first + rest) && Distinct(again) && Elements(again) == Elements(rest)
    ensures Distinct(first + again) && Elements(first + again) == Elements(first + rest)
    ensures log + [Create(title, first)] + Requests(Chunks(again, 0), Adding(id)) == log + Creating(title, id, Chunks(first + again, 0))
  {
    ElementsConcat(first, again);
    ElementsConcat(first, rest);
    DistinctParts(first, rest, again);
    CreatingPlan(title, id, first, again);
  }

  /** A listing of the ids, cut behind the first batch. */
  method FirstBatch(ids: set<ItemId>) returns (first: seq<ItemId>, rest: seq<ItemId>)
    requires ids != {}
    ensures 0 < |first| <= COLLECTION_MUTATION_BATCH_SIZE && (rest != [] ==> |first| == COLLECTION_MUTATION_BATCH_SIZE)
    ensures Distinct(first) && Distinct(first + rest)
    ensures Elements(first + rest) == Elements(first) + Elements(rest) == ids
  {
    var listed := Listed(ids);
    var end := BatchEnd(|listed|, 0);
    first, rest := listed[..end], listed[end..];
    assert listed == first + rest;
    ElementsConcat(first, rest);
  }

  /** Creates the collection with the first batch. */
  method CreateWithFirst(server: MediaServer, title: string, first: seq<ItemId>, newId: CollectionId)
    returns (ok: bool, reply: Option<CollectionId>)
    requires server.Valid() && newId !in server.boxes && Titled(server.State(), title) == []
    modifies server
    ensures server.Valid() && (reply.Some? ==> reply.value == newId)
    ensures server.State() == WithNew(old(server.State()), newId, Box(title, Elements(first))) || (!ok && server.State() == old(server.State()))
    ensures ok ==> Titled(server.State(), title) == [newId]
    ensures server.log == old(server.log) + [Create(title, first)]
    ensures old(server.calls) <= server.calls && (ok <==> server.AllAnswered(old(server.calls), server.calls))
  {
    NewIsTitledLast(server.State(), newId, Box(title, Elements(first)), title);
    ok, reply := server.PostCollection(title, first, newId);
  }

  /** The id of the collection just created, looked up by its title when the answer lacks it. */
  method IdOfNew(server: MediaServer, title: string, reply: Option<CollectionId>, ghost newId: CollectionId)
    returns (ok: bool, id: CollectionId)
    requires server.Valid() && Titled(server.State(), title) == [newId]
    requires reply.Some? ==> reply.value == newId
    modifies server`calls
    ensures ok ==> id == newId
    ensures old(server.calls) <= server.calls && (ok <==> server.AllAnswered(old(server.calls), server.calls))
  {
    if reply.Some? {
      return true, reply.value;
    }
    var titled;
    ok, titled := FindCollectionIdsByTitle(server, title);
    id := if ok then titled[0] else "";
  }

  /** The batches after the first go to the collection just created, whose id is looked up when the answer lacks it. */
  method AddRest(server: MediaServer, title: string, reply: Option<CollectionId>, newId: CollectionId,
                 ghost first: seq<ItemId>, rest: seq<ItemId>, ghost logBefore: seq<Request>)
    returns (ok: bool, ghost sent: seq<ItemId>, ghost done: set<ItemId>)
    requires server.Valid() && Titled(server.State(), title) == [newId]
    requires reply.Some? ==> reply.value == newId
    requires 0 < |first| <= COLLECTION_MUTATION_BATCH_SIZE && (rest != [] ==> |first| == COLLECTION_MUTATION_BATCH_SIZE)
    requires Distinct(first) && Distinct(first + rest) && server.log == logBefore + [Create(title, first)]
    modifies server
    ensures server.Valid() && server.State() == Extended(old(server.State()), newId, done)
    ensures done <= Elements(rest) && (ok ==> done == Elements(rest))
    ensures ok ==> Distinct(sent) && Elements(sent) == Elements(first + rest)
    ensures ok ==> server.log == logBefore + Creating(title, newId, Chunks(sent, 0))
    ensures old(server.calls) <= server.calls && (ok <==> server.AllAnswered(old(server.calls), server.calls))
  {
    if rest == [] {
      OneBatchPlan(title, newId, first);
      NoChange(server.State(), newId);
      assert first + rest == first;
      ok, sent, done := true, first, {};
      return;
    }
    var id;
    ok, id := IdOfNew(server, title, reply, newId);
    if !ok {
      NoChange(server.State(), newId);
      sent, done := [], {};
      return;
    }
    ok, sent, done := AddItemsToCollection(server, id, Elements(rest));
    PartsAreWhole(title, newId, first, rest, sent, logBefore);
    sent := first + sent;
  }

  /** `done` is what the new collection holds when it ends, all of it unless a request failed. */
  method CreateCollection(server: MediaServer, title: string, ids: set<ItemId>, newId: CollectionId)
    returns (ok: bool, ghost sent: seq<ItemId>, ghost done: set<ItemId>)
    requires server.Valid() && newId !in server.boxes && ids != {}
    requires Titled(server.State(), title) == []
    modifies server
    ensures server.Valid() && done <= ids && (ok ==> done == ids)
    ensures server.State() == WithNew(old(server.State()), newId, Box(title, done)) || (!ok && server.State() == old(server.State()))
    ensures ok ==> Distinct(sent) && Elements(sent) == ids && server.log == old(server.log) + Creating(title, newId, Chunks(sent, 0))
    ensures old(server.calls) <= server.calls && (ok <==> server.AllAnswered(old(server.calls), server.calls))
  {
    var first, rest := FirstBatch(ids);
    ghost var before, logBefore := server.State(), server.log;
    var reply;
    ok, reply := CreateWithFirst(server, title, first, newId);
    sent, done := first, Elements(first);
    if !ok {
      return;
    }
    ghost var added;
    ok, sent, added := AddRest(server, title, reply, newId, first, rest, logBefore);
    ExtendNew(before, newId, title, Elements(first), added);
    done := done + added;
  }

  lemma {:induction false} DroppedMembers(order: seq<CollectionId>, gone: set<CollectionId>)
    ensures forall id :: id in Dropped(order, gone) <==> id in order && id !in gone
    ensures Distinct(order) ==> Distinct(Dropped(order, gone))
  {
    if order != [] {
      DroppedMembers(order[..|order| - 1], gone);
      assert forall id :: id in order <==> id in order[..|order| - 1] || id == order[|order| - 1];
    }
  }

  lemma WithoutIsValid(w: World, gone: set<CollectionId>)
    requires ValidWorld(w)
    ensures ValidWorld(Without(w, gone))
  {
    DroppedMembers(w.order, gone);
  }

  lemma {:induction false} DroppedTwice(order: seq<CollectionId>, a: set<CollectionId>, b: set<CollectionId>)
    ensures Dropped(Dropped(order, a), b) == Dropped(order, a + b)
  {
    if order != [] {
      var front, last := order[..|order| - 1], order[|order| - 1];
      DroppedTwice(front, a, b);
      if last !in a {
        assert Dropped(order, a)[..|Dropped(order, a)| - 1] == Dropped(front, a);
      } else {
        assert Dropped(order, a) == Dropped(front, a);
      }
    }
  }

  lemma {:induction false} DroppedNone(order: seq<CollectionId>)
    ensures Dropped(order, {}) == order
  {
    if order != [] {
      DroppedNone(order[..|order| - 1]);
    }
  }

  lemma WithoutTwice(w: World, a: set<CollectionId>, b: set<CollectionId>)
    ensures Without(Without(w, a), b) == Without(w, a + b)
  {
    DroppedTwice(w.order, a, b);
    assert w.boxes - a - b == w.boxes - (a + b);
  }

  lemma WithoutNone(w: World)
    ensures Without(w, {}) == w
  {
    DroppedNone(w.order);
  }

  /** `done` is what has been deleted when it ends, all of it unless a request failed. */
  method DeleteCollections(server: MediaServer, ids: seq<CollectionId>) returns (ok: bool, ghost done: set<CollectionId>)
    requires server.Valid()
    modifies server
    ensures server.Valid() && server.State() == Without(old(server.State()), done)
    ensures done <= Elements(ids) && (ok ==> done == Elements(ids))
    ensures old(server.calls) <= server.calls && (ok <==> server.AllAnswered(old(server.calls), server.calls))
  {
    ghost var before := server.State();
    WithoutNone(before);
    done := {};
    for i := 0 to |ids|
      invariant done == Elements(ids[..i])
      invariant server.AllAnswered(old(server.calls), server.calls)
      invariant server.Valid() && server.State() == Without(before, done)
    {
      WithoutIsValid(server.State(), {ids[i]});
      WithoutTwice(before, done, {ids[i]});
      assert ids[..i] + [ids[i]] == ids[..i + 1];
      assert Elements(ids[..i + 1]) == Elements(ids[..i]) + {ids[i]};
      ghost var applied;
      ok, applied := server.DeleteCollection(ids[i]);
      if applied {
        done := done + {ids[i]};
      }
      if !ok {
        return;
      }
    }
    assert ids[..|ids|] == ids;
    ok := true;
  }

  method ReconcileMembers(server: MediaServer, title: string, kept: CollectionId, want: set<ItemId>, kinds: set<string>) returns (ok: bool)
    requires server.Valid() && kept in server.boxes && SameTitle(server.boxes[kept].name, title)
    modifies server
    ensures server.Valid() && kept in server.boxes && SameTitle(server.boxes[kept].name, title)
    ensures Keeps(old(server.State()), server.State(), server.library, kinds, title, want)
    ensures ok ==> server.State() == Reconciled(old(server.State()), server.library, kinds, kept, want)
    ensures old(server.calls) <= server.calls && (ok <==> server.AllAnswered(old(server.calls), server.calls))
  {
    ghost var before, lib := server.State(), server.library;
    NoChange(before, kept);
    ExtendedKeeps(before, kept, {}, lib, kinds, title, want);
    var current;
    ok, current := GetCollectionItemIds(server, kept, kinds);
    if !ok {
      return;
    }
    var itemsToAdd := want - current;
    var itemsToRemove := current - want;
    ghost var goal := Existing(want - current, lib, kinds);
    if itemsToAdd != {} {
      ghost var asked;
      ok, itemsToAdd, asked := FilterExistingCollectionItemIds(server, itemsToAdd, kinds);
      if !ok {
        return;
      }
    }
    assert itemsToAdd == goal;
    ghost var added := {};
    if itemsToAdd != {} {
      ghost var sent;
      ok, sent, added := AddItemsToCollection(server, kept, itemsToAdd);
    }
    ExtendedKeeps(before, kept, added, lib, kinds, title, want);
    if !ok {
      return;
    }
    ghost var grown := server.State();
    NoChange(grown, kept);
    if itemsToRemove != {} {
      ghost var sent, removed;
      ok, sent, removed := RemoveItemsFromCollection(server, kept, itemsToRemove);
      ReducedKeeps(grown, kept, removed, lib, kinds, title, want);
    }
  }

  /** Deleting stale collections of the title, after the kept one has been reconciled. */
  lemma RestKeeps(w: World, reconciled: World, ids: seq<CollectionId>, gone: set<CollectionId>,
                  lib: Library, kinds: set<string>, title: string, want: set<ItemId>)
    requires ValidWorld(w) && Keeps(w, reconciled, lib, kinds, title, want)
    requires ids == Titled(w, title) && ids != [] && gone <= Elements(ids[1..])
    ensures Keeps(w, Without(reconciled, gone), lib, kinds, title, want)
  {
    TitledMembers(w.order, w.boxes, title);
    forall id | id in gone && id in reconciled.boxes ensures SameTitle(reconciled.boxes[id].name, title) {
      assert id in ids;
      assert id !in Others(w, title);
    }
    WithoutKeeps(reconciled, gone, lib, kinds, title, want);
  }

  /**
   A synchronisation ends without a fault exactly when none of its requests fails, and then brings
   about the specified world; one that is cut short anywhere has kept all other titles, and has put
   no vanished item into a collection of the title.
   */
  method SyncLeavingSoonCollection(server: MediaServer, title: string, expected: set<ItemId>, kinds: set<string>, newId: CollectionId)
    returns (ok: bool)
    requires server.Valid() && newId !in server.boxes
    modifies server
    ensures server.Valid()
    ensures Keeps(old(server.State()), server.State(), server.library, kinds, title, Normalized(expected))
    ensures OtherTitlesUntouched(old(server.boxes), server.boxes, title)
    ensures ok ==> server.State() == Synced(old(server.State()), server.library, kinds, title, expected, newId)
    ensures old(server.calls) <= server.calls && (ok <==> server.AllAnswered(old(server.calls), server.calls))
  {
    var want := Normalized(expected);
    ghost var before, lib := server.State(), server.library;
    var ids;
    ok, ids := FindCollectionIdsByTitle(server, title);
    if !ok {
      return;
    }
    TitledMembers(server.order, server.boxes, title);
    if want == {} {
      ghost var gone;
      ok, gone := DeleteCollections(server, ids);
      WithoutKeeps(before, gone, lib, kinds, title, want);
      OthersUntouched(before, server.State(), title);
      return;
    }
    if ids == [] {
      ghost var asked, sent, done;
      var found;
      ok, found, asked := FilterExistingCollectionItemIds(server, want, kinds);
      if !ok || found == {} {
        return;
      }
      ok, sent, done := CreateCollection(server, title, found, newId);
      WithNewKeeps(before, newId, done, lib, kinds, title, want);
      OthersUntouched(before, server.State(), title);
      return;
    }
    assert ids[0] in ids;
    ok := ReconcileMembers(server, title, ids[0], want, kinds);
    OthersUntouched(before, server.State(), title);
    if !ok {
      return;
    }
    ghost var reconciled, gone := server.State(), {};
    ok, gone := DeleteCollections(server, ids[1..]);
    RestKeeps(before, reconciled, ids, gone, lib, kinds, title, want);
    OthersUntouched(before, server.State(), title);
  }
}
